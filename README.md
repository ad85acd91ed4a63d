# astConverter: TypeScript AST to ESTree

This project models `astConverter` from `@typescript-eslint/typescript-estree`. The function bridges a TypeScript `SourceFile` to an ESTree `Program`. It works in four steps:

1. **Diagnostic gate.** A source file with any parse diagnostic is refused. The error thrown is built from the first diagnostic only.
2. **Conversion.** A `Converter` is built from the file. It gets `allowInvalidAST`, `errorOnUnknownASTType` and `suppressDeprecatedPropertyWarnings` from the parse settings, plus the `shouldPreserveNodeMaps` argument. `convertProgram` then yields the `Program`.
3. **Position stripping.** This is an in-place traversal of every node. It deletes `range` when the `range` setting is off and `loc` when the `loc` setting is off. It is skipped when both settings are on.
4. **Attachment.** `tokens` and `comments` are set on the root after stripping, each only when its own setting is on. The result is `{ astMaps, estree }`.

Files:

- `estree.dfy` (module `Estree`):
  - position, token and comment records;
  - the converter's tree as a value (`Tree`) and its pre-order listing (`Flatten`);
  - ESTree nodes as heap objects (`Node`);
  - `Materialise`, which allocates the objects for a converted tree.
- `strip.dfy` (module `PositionStrip`):
  - the stripping pass on values (`StripTree`) and its laws;
  - the traversal callback (`StripNode`) and the traversal over the heap objects (`StripPositions`, `RemovePositions`).
- `ast_converter.dfy` (module `AstConverter`):
  - the parse settings, the converter options and the diagnostic gate;
  - the collaborators `astConverter` calls, passed in as functions;
  - `AstConverterSpec`, the outcome as a value;
  - the method `AstConverter`, which changes the heap step by step as the original does;
  - lemmas about the outcome.

The collaborators whose code is not part of this model are passed in as function-valued fields of `Collaborators`:

- `convertError`;
- the `Converter` with `convertProgram` and `getASTMaps`;
- `convertTokens`;
- `convertComments`.

The converter returns a `Result`, because `convertProgram` may itself throw. An error it throws propagates out of `astConverter` unchanged.

`simpleTraverse` is modelled only as "visit every node of the tree once". `Materialise` returns the new objects as a list, root first in pre-order, with no object listed twice. The list is closed under `children`, and `ReachableNodesAreListed` proves that every node reached from the root by following children is in it. The traversal walks that list.

The objects form a tree, not a shared graph. No two child links, whether of one object or of two, lead to the same object (`LinksUnshared`), and no child link leads back to the root (`Unlinked`). A node's `kind` and `children` are constant fields: the converter's later steps delete positions and attach lists but never relink a node.

Alongside the list, a ghost list of subtrees says which part of the converter's tree each object stands for (`Mirrors`). Object `i` holds the kind, `range`, `loc` and child count of subtree `i`. Its `j`-th child link leads to the object standing for that subtree's `j`-th child.

## Model

| member | source | states |
|---|---|---|
| `AstConverter.DiagnosticGate` | packages/typescript-estree/src/ast-converter.ts:21-24 | Conversion is refused exactly when the diagnostics are non-empty. The error is `convertError` of the first diagnostic. |
| `AstConverter.GateUsesOnlyFirstDiagnostic` | packages/typescript-estree/src/ast-converter.ts:21-24 | With diagnostics present, the outcome is the failure built from the first diagnostic. Two files whose first diagnostics agree have the same outcome, whatever follows. No tree is returned. |
| `AstConverter.NoDiagnosticsReachesConverter` | packages/typescript-estree/src/ast-converter.ts:21-37 | Without diagnostics the gate lets conversion through. The outcome fails exactly when the converter fails, with its error, and the converter runs with `allowInvalidAST`, `errorOnUnknownASTType`, `suppressDeprecatedPropertyWarnings` and `shouldPreserveNodeMaps` passed unchanged. On success the maps are the converter's. |
| `Estree.Materialise` | packages/typescript-estree/src/ast-converter.ts:37 | The `Program` objects are fresh and listed root first, each once, with every child of a listed object listed too. Node by node in pre-order, they hold the converter tree's kind, range, loc and child count. They mirror the converter's tree: the root stands for the whole tree, and each child link leads to the object standing for the matching child subtree. No two child links lead to the same object, and none leads to the root. No node has tokens or comments yet. |
| `Estree.NoNodeIsItsOwnChild` | packages/typescript-estree/src/ast-converter.ts:37 | In objects that mirror a tree, no object is its own child. |
| `Estree.ReachableNodesAreListed` | packages/typescript-estree/src/ast-converter.ts:43 | Every node reached from the root by following children is among the nodes the traversal visits. |
| `PositionStrip.StripTree` | packages/typescript-estree/src/ast-converter.ts:43-56 | The root of the stripped tree keeps its kind and child count, keeps `range` iff `range` is on and keeps `loc` iff `loc` is on. |
| `PositionStrip.StripAllPointwise` | packages/typescript-estree/src/ast-converter.ts:43-56 | Stripping a sequence of sibling subtrees strips each one where it stands. |
| `PositionStrip.StripData` | packages/typescript-estree/src/ast-converter.ts:44-55 | A visited node keeps its `range` iff `range` is on and its `loc` iff `loc` is on. Its kind and child count are untouched. |
| `PositionStrip.StripNode` | packages/typescript-estree/src/ast-converter.ts:44-55 | The callback changes only the visited node's `range` and `loc`, as `StripData` says. Its tokens and comments are unchanged, and its kind and children are constant fields. |
| `PositionStrip.StripPositions` | packages/typescript-estree/src/ast-converter.ts:43-56 | Each visited node (all distinct) ends stripped exactly once. Tokens and comments are unchanged. |
| `PositionStrip.RemovePositions` | packages/typescript-estree/src/ast-converter.ts:42-57 | Whether the pass runs or is skipped (both settings on), the objects end up holding the stripped tree node by node and mirroring it link by link. Every object's tokens and comments are unchanged. |
| `PositionStrip.FlattenStripTree` | packages/typescript-estree/src/ast-converter.ts:43-56 | Stripping the tree strips each node of its pre-order listing and nothing else. Length and order are kept. |
| `PositionStrip.FlattenStripAll` | packages/typescript-estree/src/ast-converter.ts:43-56 | The same for a sequence of sibling subtrees. |
| `PositionStrip.StripTreeKeepsAll` | packages/typescript-estree/src/ast-converter.ts:42 | With both settings on, stripping is the identity, so skipping the pass loses nothing. |
| `PositionStrip.StripAllKeepsAll` | packages/typescript-estree/src/ast-converter.ts:42 | The same for a sequence of sibling subtrees. |
| `PositionStrip.StripTreeIdempotent` | packages/typescript-estree/src/ast-converter.ts:43-56 | Stripping twice with the same settings equals stripping once. |
| `PositionStrip.StripAllIdempotent` | packages/typescript-estree/src/ast-converter.ts:43-56 | The same for a sequence of sibling subtrees. |
| `PositionStrip.ReachableNodesStripped` | packages/typescript-estree/src/ast-converter.ts:42-57 | After the pass, a node reachable from the root has no `range` when `range` is off and no `loc` when `loc` is off. |
| `AstConverter.StrippingIsComplete` | packages/typescript-estree/src/ast-converter.ts:45-54 | In a returned tree, with `range` off no node has a `range`, and with `loc` off no node has a `loc`. |
| `AstConverter.RangeAndLocAreIndependent` | packages/typescript-estree/src/ast-converter.ts:45-54 | The returned tree has the converter tree's nodes in the same order with the same kinds and child counts. Every node keeps its `range` when `range` is on and its `loc` when `loc` is on, whatever the other setting is. |
| `AstConverter.BothOnLeavesTreeAsConverted` | packages/typescript-estree/src/ast-converter.ts:42 | With `range` and `loc` both on, the returned tree is exactly the converter's tree. |
| `AstConverter.StrippingIsIdempotent` | packages/typescript-estree/src/ast-converter.ts:43-56 | Applying the stripping pass again to the returned tree with the same settings leaves it unchanged. |
| `AstConverter.TokensAndCommentsAreIndependent` | packages/typescript-estree/src/ast-converter.ts:62-71 | Changing the `tokens` or `comment` setting changes neither the tree nor the maps. Each list depends only on its own setting. |
| `AstConverter.AttachLists` | packages/typescript-estree/src/ast-converter.ts:62-71 | `tokens` is set to `convertTokens(ast)` only when `tokens` is on. `comments` is set to `convertComments(ast, codeFullText)` only when `comment` is on. Every node's data and the mirroring are unchanged. |
| `AstConverter.BuildProgram` | packages/typescript-estree/src/ast-converter.ts:37-71 | Builds fresh objects holding and mirroring the stripped converter tree, node by node and link by link. No two child links lead to the same object, and none leads to the root. It then attaches the lists after stripping, so their entries are exactly the collaborators' output. Only the root has lists, and no reachable node keeps a deleted field. |
| `AstConverter.AstConverter` | packages/typescript-estree/src/ast-converter.ts:12-76 | With diagnostics, fails with the first one's error. Otherwise it calls the converter with the options passed through. On success it returns the same converter's maps and fresh objects holding and mirroring the stripped converter tree, node by node and link by link. No two child links lead to the same object, and none leads to the root. With both settings on, that is the converter's tree itself. Lists are attached per their settings. The whole outcome agrees with `AstConverterSpec`. |
| `AstConverter.AstConverterSpec` | packages/typescript-estree/src/ast-converter.ts:12-76 | As a value: with diagnostics, the failure built from the first one. Without them, it fails exactly when the converter fails, with the converter's error; on success it carries the converter's maps. The token list is present iff `tokens` is on, and the comment list iff `comment` is on. |
| `AstConverter.ConverterOptionsFor` | packages/typescript-estree/src/ast-converter.ts:29-35 | The converter gets `allowInvalidAST`, `errorOnUnknownASTType` and `suppressDeprecatedPropertyWarnings` from the parse settings unchanged, and `shouldPreserveNodeMaps` from the caller. |

## Left out

- The `Converter` internals (per-kind conversion rules, unknown-kind handling, `allowInvalidAST` placeholders, node-map construction), `convertError`, `convertTokens` and `convertComments` are not part of this model. They are uninterpreted functions supplied in `Collaborators`.
- `convertTokens` and `convertComments` are modelled as total. An exception thrown by the TypeScript scanner inside them is not modelled.
- `simpleTraverse`'s visitor keys are not modelled. The traversal is the pre-order list of every node produced with the objects, and it visits each node once.
- Kind-specific node properties are folded into the node's `kind`. `kind` and `children` are constant fields of `Node`, so no step of the model can change them.
- `ASTMaps` is an opaque value taken from the converter. Its `WeakMap` nature and memory reclamation are not modelled. The original always returns `getASTMaps()` whatever `shouldPreserveNodeMaps` is, and passes the flag on to the converter; the model does the same. It does not discard the maps itself.
- The TypeScript `SourceFile` is reduced to its name, text and `parseDiagnostics`. How `ParseSettings` is constructed and the deprecated-property warning mechanism are not modelled.
- Exception propagation is modelled as a `Result`. A thrown error is a `Failure`, and nothing is returned with it.
