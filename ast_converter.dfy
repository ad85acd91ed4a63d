/**
 * `astConverter`: refuses a source file with parse diagnostics, has the
 * converter build the ESTree `Program`, optionally deletes `range` and `loc`
 * from every node, optionally attaches the token and comment lists to the
 * root, and returns the tree with the converter's node maps.
 */
module AstConverter {
  import opened Estree
  import opened PositionStrip

  datatype Result<+T, +E> = Success(value: T) | Failure(error: E)

  /** A TypeScript parse diagnostic. */
  datatype Diagnostic = Diagnostic(message: string, start: nat, length: nat, code: int)

  /** The parsed TypeScript source file, reduced to what the bridge reads of it. */
  datatype SourceFile = SourceFile(fileName: string, text: string, parseDiagnostics: seq<Diagnostic>)

  /** The error thrown to the caller. */
  datatype TsError = TsError(message: string, index: nat, lineNumber: nat, column: nat)

  /** The parse settings `astConverter` consults. */
  datatype ParseSettings = ParseSettings(
    allowInvalidAST: bool,
    codeFullText: string,
    comment: bool,
    errorOnUnknownASTType: bool,
    loc: bool,
    range: bool,
    suppressDeprecatedPropertyWarnings: bool,
    tokens: bool)

  /** The options the converter is constructed with. */
  datatype ConverterOptions = ConverterOptions(
    allowInvalidAST: bool,
    errorOnUnknownASTType: bool,
    shouldPreserveNodeMaps: bool,
    suppressDeprecatedPropertyWarnings: bool)

  /**
   * The two node maps between ESTree nodes and TypeScript nodes, as an
   * opaque value taken from the converter and handed back unchanged.
   */
  datatype AstMaps = AstMaps(esTreeNodeToTSNodeMap: map<nat, nat>, tsNodeToESTreeNodeMap: map<nat, nat>)

  /** What one converter instance yields: its `Program` and its node maps. */
  datatype Converted = Converted(program: Tree, astMaps: AstMaps)

  /**
   * The functions `astConverter` calls but does not define: the conversion of
   * a diagnostic to an error, the converter (which may itself throw), and the
   * token and comment scanners.
   */
  datatype Collaborators = Collaborators(
    convertError: Diagnostic -> TsError,
    convertProgram: (SourceFile, ConverterOptions) -> Result<Converted, TsError>,
    convertTokens: SourceFile -> seq<Token>,
    convertComments: (SourceFile, string) -> seq<Comment>)

  /**
   * Conversion is refused exactly when there are diagnostics, and then with
   * the error built from the first one.
   */
  function DiagnosticGate(diagnostics: seq<Diagnostic>, convertError: Diagnostic -> TsError): (r: Option<TsError>)
    ensures r.Some? <==> |diagnostics| > 0
    ensures r.Some? ==> r.value == convertError(diagnostics[0])
  {
    if |diagnostics| > 0 then Some(convertError(diagnostics[0])) else None
  }

  /**
   * The converter's options: three taken from the parse settings as they
   * are, and the node-map flag from the caller.
   */
  function ConverterOptionsFor(settings: ParseSettings, shouldPreserveNodeMaps: bool): (r: ConverterOptions)
    ensures r.allowInvalidAST == settings.allowInvalidAST
    ensures r.errorOnUnknownASTType == settings.errorOnUnknownASTType
    ensures r.suppressDeprecatedPropertyWarnings == settings.suppressDeprecatedPropertyWarnings
    ensures r.shouldPreserveNodeMaps == shouldPreserveNodeMaps
  {
    ConverterOptions(
      allowInvalidAST := settings.allowInvalidAST,
      errorOnUnknownASTType := settings.errorOnUnknownASTType,
      shouldPreserveNodeMaps := shouldPreserveNodeMaps,
      suppressDeprecatedPropertyWarnings := settings.suppressDeprecatedPropertyWarnings)
  }

  /** The returned `Program` as a value: its tree and its root-level lists. */
  datatype EstreeValue = EstreeValue(
    astMaps: AstMaps,
    program: Tree,
    tokens: Option<seq<Token>>,
    comments: Option<seq<Comment>>)

  /** What `astConverter` returns or throws, as a value. */
  function AstConverterSpec(ast: SourceFile, settings: ParseSettings, shouldPreserveNodeMaps: bool, c: Collaborators)
    : (r: Result<EstreeValue, TsError>)
    ensures |ast.parseDiagnostics| > 0 ==> r == Failure(c.convertError(ast.parseDiagnostics[0]))
    ensures |ast.parseDiagnostics| == 0 ==>
      var converted := c.convertProgram(ast, ConverterOptionsFor(settings, shouldPreserveNodeMaps));
      && (r.Failure? <==> converted.Failure?)
      && (r.Failure? ==> r.error == converted.error)
      && (r.Success? ==> r.value.astMaps == converted.value.astMaps)
    ensures r.Success? ==> (r.value.tokens.Some? <==> settings.tokens) && (r.value.comments.Some? <==> settings.comment)
  {
    match DiagnosticGate(ast.parseDiagnostics, c.convertError)
    case Some(e) => Failure(e)
    case None =>
      match c.convertProgram(ast, ConverterOptionsFor(settings, shouldPreserveNodeMaps))
      case Failure(e) => Failure(e)
      case Success(converted) =>
        Success(EstreeValue(
          converted.astMaps,
          StripTree(converted.program, settings.range, settings.loc),
          if settings.tokens then Some(c.convertTokens(ast)) else None,
          if settings.comment then Some(c.convertComments(ast, settings.codeFullText)) else None))
  }

  /**
   * With diagnostics present the outcome is the error built from the first
   * one: two files whose first diagnostics agree fail alike, whatever follows.
   */
  lemma GateUsesOnlyFirstDiagnostic(
    ast: SourceFile, other: SourceFile, settings: ParseSettings, shouldPreserveNodeMaps: bool, c: Collaborators)
    requires |ast.parseDiagnostics| > 0 && |other.parseDiagnostics| > 0
    requires ast.parseDiagnostics[0] == other.parseDiagnostics[0]
    ensures AstConverterSpec(ast, settings, shouldPreserveNodeMaps, c) == Failure(c.convertError(ast.parseDiagnostics[0]))
    ensures AstConverterSpec(other, settings, shouldPreserveNodeMaps, c) == AstConverterSpec(ast, settings, shouldPreserveNodeMaps, c)
  {
  }

  /**
   * Without diagnostics the gate lets conversion through: the outcome is the
   * converter's, run with the settings' converter options unchanged.
   */
  lemma NoDiagnosticsReachesConverter(
    ast: SourceFile, settings: ParseSettings, shouldPreserveNodeMaps: bool, c: Collaborators)
    requires |ast.parseDiagnostics| == 0
    ensures var converted := c.convertProgram(ast, ConverterOptions(
              settings.allowInvalidAST, settings.errorOnUnknownASTType,
              shouldPreserveNodeMaps, settings.suppressDeprecatedPropertyWarnings));
            var r := AstConverterSpec(ast, settings, shouldPreserveNodeMaps, c);
            && (r.Failure? <==> converted.Failure?)
            && (r.Failure? ==> r.error == converted.error)
            && (r.Success? ==> r.value.astMaps == converted.value.astMaps)
  {
  }

  /** With `range` off no node keeps a `range`; with `loc` off none keeps a `loc`. */
  lemma {:induction false} StrippingIsComplete(
    ast: SourceFile, settings: ParseSettings, shouldPreserveNodeMaps: bool, c: Collaborators)
    requires AstConverterSpec(ast, settings, shouldPreserveNodeMaps, c).Success?
    ensures var nodes := Flatten(AstConverterSpec(ast, settings, shouldPreserveNodeMaps, c).value.program);
            forall i :: 0 <= i < |nodes| ==>
              (!settings.range ==> nodes[i].range == None) && (!settings.loc ==> nodes[i].loc == None)
  {
    var converted := c.convertProgram(ast, ConverterOptionsFor(settings, shouldPreserveNodeMaps)).value;
    FlattenStripTree(converted.program, settings.range, settings.loc);
  }

  /**
   * The two settings act independently and touch nothing else: every node
   * keeps its kind and its children, keeps its `range` when `range` is on and
   * keeps its `loc` when `loc` is on.
   */
  lemma {:induction false} RangeAndLocAreIndependent(
    ast: SourceFile, settings: ParseSettings, shouldPreserveNodeMaps: bool, c: Collaborators)
    requires AstConverterSpec(ast, settings, shouldPreserveNodeMaps, c).Success?
    ensures var converted := c.convertProgram(ast, ConverterOptionsFor(settings, shouldPreserveNodeMaps)).value;
            var before := Flatten(converted.program);
            var after := Flatten(AstConverterSpec(ast, settings, shouldPreserveNodeMaps, c).value.program);
            && |after| == |before|
            && forall i :: 0 <= i < |after| ==>
                 && after[i].kind == before[i].kind
                 && after[i].arity == before[i].arity
                 && (settings.range ==> after[i].range == before[i].range)
                 && (settings.loc ==> after[i].loc == before[i].loc)
  {
    var converted := c.convertProgram(ast, ConverterOptionsFor(settings, shouldPreserveNodeMaps)).value;
    FlattenStripTree(converted.program, settings.range, settings.loc);
  }

  /** With both `range` and `loc` on, the tree is exactly as the converter built it. */
  lemma {:induction false} BothOnLeavesTreeAsConverted(
    ast: SourceFile, settings: ParseSettings, shouldPreserveNodeMaps: bool, c: Collaborators)
    requires AstConverterSpec(ast, settings, shouldPreserveNodeMaps, c).Success?
    requires settings.range && settings.loc
    ensures AstConverterSpec(ast, settings, shouldPreserveNodeMaps, c).value.program
         == c.convertProgram(ast, ConverterOptionsFor(settings, shouldPreserveNodeMaps)).value.program
  {
    var converted := c.convertProgram(ast, ConverterOptionsFor(settings, shouldPreserveNodeMaps)).value;
    StripTreeKeepsAll(converted.program);
  }

  /** Stripping the returned tree again with the same settings leaves it unchanged. */
  lemma {:induction false} StrippingIsIdempotent(
    ast: SourceFile, settings: ParseSettings, shouldPreserveNodeMaps: bool, c: Collaborators)
    requires AstConverterSpec(ast, settings, shouldPreserveNodeMaps, c).Success?
    ensures var program := AstConverterSpec(ast, settings, shouldPreserveNodeMaps, c).value.program;
            StripTree(program, settings.range, settings.loc) == program
  {
    var converted := c.convertProgram(ast, ConverterOptionsFor(settings, shouldPreserveNodeMaps)).value;
    StripTreeIdempotent(converted.program, settings.range, settings.loc);
  }

  /**
   * The `tokens` and `comment` settings decide only their own root-level
   * list: changing either leaves the tree, the node maps and the other list
   * as they were.
   */
  lemma TokensAndCommentsAreIndependent(
    ast: SourceFile, settings: ParseSettings, tokens: bool, comment: bool,
    shouldPreserveNodeMaps: bool, c: Collaborators)
    requires AstConverterSpec(ast, settings, shouldPreserveNodeMaps, c).Success?
    ensures var r := AstConverterSpec(ast, settings, shouldPreserveNodeMaps, c).value;
            var r' := AstConverterSpec(ast, settings.(tokens := tokens, comment := comment), shouldPreserveNodeMaps, c);
            && r'.Success?
            && r'.value.program == r.program && r'.value.astMaps == r.astMaps
            && (tokens == settings.tokens ==> r'.value.tokens == r.tokens)
            && (comment == settings.comment ==> r'.value.comments == r.comments)
  {
    var settings' := settings.(tokens := tokens, comment := comment);
    assert ConverterOptionsFor(settings', shouldPreserveNodeMaps) == ConverterOptionsFor(settings, shouldPreserveNodeMaps);
  }

  /** The returned pair: the node maps and the `Program` root object. */
  datatype Output = Output(astMaps: AstMaps, estree: Node)

  /**
   * Sets the root's `tokens` when `tokens` is on and its `comments` when
   * `comment` is on, after the stripping pass; no node is touched otherwise.
   */
  method AttachLists(ast: SourceFile, settings: ParseSettings, estree: Node, ghost nodes: seq<Node>,
                     ghost ds: seq<NodeData>, ghost subtrees: seq<Tree>, c: Collaborators)
    requires IsTree(estree, nodes) && Denotes(nodes, ds) && Mirrors(nodes, subtrees)
    modifies estree
    ensures IsTree(estree, nodes) && Denotes(nodes, ds) && Mirrors(nodes, subtrees)
    ensures estree.tokens == (if settings.tokens then Some(c.convertTokens(ast)) else old(estree.tokens))
    ensures estree.comments == (if settings.comment then Some(c.convertComments(ast, settings.codeFullText)) else old(estree.comments))
  {
    if settings.tokens {
      estree.tokens := Some(c.convertTokens(ast));
    }
    if settings.comment {
      estree.comments := Some(c.convertComments(ast, settings.codeFullText));
    }
    forall i | 0 <= i < |nodes|
      ensures NodeDataOf(nodes[i]) == old(NodeDataOf(nodes[i]))
    {
    }
    assert Denotes(nodes, ds) && Mirrors(nodes, subtrees);
  }

  /**
   * Everything after a successful conversion: the converter's `Program` as
   * fresh objects, stripped of positions as the settings ask, then given the
   * token and comment lists the settings ask for.
   */
  method BuildProgram(ast: SourceFile, settings: ParseSettings, program: Tree, c: Collaborators)
    returns (estree: Node, ghost nodes: seq<Node>, ghost subtrees: seq<Tree>)
    ensures fresh(set n | n in nodes)
    ensures IsTree(estree, nodes) && LinksUnshared(nodes) && Unlinked(nodes, [estree])
    ensures Denotes(nodes, Flatten(StripTree(program, settings.range, settings.loc)))
    ensures Mirrors(nodes, subtrees) && subtrees[0] == StripTree(program, settings.range, settings.loc)
    ensures forall i :: 0 < i < |nodes| ==> nodes[i].tokens == None && nodes[i].comments == None
    ensures estree.tokens == (if settings.tokens then Some(c.convertTokens(ast)) else None)
    ensures estree.comments == (if settings.comment then Some(c.convertComments(ast, settings.codeFullText)) else None)
    ensures forall path: seq<Node> :: |path| > 0 && path[0] == estree && IsChildPath(path) ==>
      (!settings.range ==> path[|path| - 1].range == None) &&
      (!settings.loc ==> path[|path| - 1].loc == None)
  {
    var all;
    ghost var subs;
    estree, all, subs := Materialise(program);
    nodes := all;
    RemovePositions(estree, all, program, subs, settings.range, settings.loc);
    StripAllPointwise(subs, settings.range, settings.loc);
    subtrees := StripAll(subs, settings.range, settings.loc);
    AttachLists(ast, settings, estree, all, Flatten(StripTree(program, settings.range, settings.loc)), subtrees, c);

    forall path: seq<Node> | |path| > 0 && path[0] == estree && IsChildPath(path)
      ensures (!settings.range ==> path[|path| - 1].range == None) &&
              (!settings.loc ==> path[|path| - 1].loc == None)
    {
      ReachableNodesStripped(estree, all, program, settings.range, settings.loc, path);
    }
  }

  /**
   * Converts `ast` to an ESTree `Program` whose nodes are listed, root first,
   * in `nodes`; `subtrees[i]` is the subtree `nodes[i]` stands for. The new
   * objects hold, node by node and link by link, the tree that
   * `AstConverterSpec` describes.
   */
  method AstConverter(ast: SourceFile, settings: ParseSettings, shouldPreserveNodeMaps: bool, c: Collaborators)
    returns (r: Result<Output, TsError>, ghost nodes: seq<Node>, ghost subtrees: seq<Tree>)
    ensures |ast.parseDiagnostics| > 0 ==> r == Failure(c.convertError(ast.parseDiagnostics[0]))
    ensures r.Failure? <==> AstConverterSpec(ast, settings, shouldPreserveNodeMaps, c).Failure?
    ensures r.Failure? ==> AstConverterSpec(ast, settings, shouldPreserveNodeMaps, c) == Failure(r.error)
    ensures r.Success? ==>
      var spec := AstConverterSpec(ast, settings, shouldPreserveNodeMaps, c).value;
      && r.value.astMaps == spec.astMaps
      && fresh(set n | n in nodes)
      && IsTree(r.value.estree, nodes) && LinksUnshared(nodes) && Unlinked(nodes, [r.value.estree])
      && Denotes(nodes, Flatten(spec.program))
      && Mirrors(nodes, subtrees) && subtrees[0] == spec.program
      && r.value.estree.tokens == spec.tokens
      && r.value.estree.comments == spec.comments
      && (forall i :: 0 < i < |nodes| ==> nodes[i].tokens == None && nodes[i].comments == None)
    ensures r.Success? ==>
      var converted := c.convertProgram(ast, ConverterOptions(
        allowInvalidAST := settings.allowInvalidAST,
        errorOnUnknownASTType := settings.errorOnUnknownASTType,
        shouldPreserveNodeMaps := shouldPreserveNodeMaps,
        suppressDeprecatedPropertyWarnings := settings.suppressDeprecatedPropertyWarnings));
      && |ast.parseDiagnostics| == 0
      && converted.Success?
      && r.value.astMaps == converted.value.astMaps
      && Denotes(nodes, Flatten(StripTree(converted.value.program, settings.range, settings.loc)))
      && subtrees[0] == StripTree(converted.value.program, settings.range, settings.loc)
      && (settings.range && settings.loc ==> subtrees[0] == converted.value.program)
      && r.value.estree.tokens == (if settings.tokens then Some(c.convertTokens(ast)) else None)
      && r.value.estree.comments == (if settings.comment then Some(c.convertComments(ast, settings.codeFullText)) else None)
    ensures r.Success? ==>
      forall path: seq<Node> :: |path| > 0 && path[0] == r.value.estree && IsChildPath(path) ==>
        (!settings.range ==> path[|path| - 1].range == None) &&
        (!settings.loc ==> path[|path| - 1].loc == None)
  {
    nodes, subtrees := [], [];
    var gate := DiagnosticGate(ast.parseDiagnostics, c.convertError);
    if gate.Some? {
      return Failure(gate.value), [], [];
    }

    var options := ConverterOptionsFor(settings, shouldPreserveNodeMaps);
    var converted := c.convertProgram(ast, options);
    if converted.Failure? {
      return Failure(converted.error), [], [];
    }
    var estree;
    estree, nodes, subtrees := BuildProgram(ast, settings, converted.value.program, c);
    if settings.range && settings.loc {
      StripTreeKeepsAll(converted.value.program);
    }
    r := Success(Output(converted.value.astMaps, estree));
  }
}
