# jsns namespace registry, modelled in Dafny

`jsns` is a registry of named groups of exports for browser code. Code units
register under dotted paths such as `$.util.math`, publish values into a
namespace's export table, seal it when it is complete, and import them by
specifiers such as `$.util:double, triple`. A namespace is one of three kinds:
- public, importable by anyone;
- protected, importable only from a calling path that starts with its own path;
- private, never importable.

It can be imported only once it is sealed. One namespace can be designated,
once, as the system namespace. From then on every session receives a copy of
its exports. Failures return `null` and record a description in a single
`lasterror` slot.

The model has five modules, one per file:

- `Text` (text.dfy): the string built-ins and patterns the registry relies on.
  These are `split`, `join`, `indexOf` and `trim`, the blank-segment test
  `/^\s*$/`, and the namespace-name pattern `/^[A-Za-z$][A-Za-z0-9_\-$]*$/`.
- `Tree` (tree.dfy): the namespace tree as a value.
  - Nodes are records in a `map<NodeId, Node>`; the single top-level name `$` is node 0.
  - `FindPath` resolves a dotted path, as `findNamespace` does.
  - `CreateChild` creates or joins a child, as `createNamespace` does.
  - `Error` lists every description `_err` can record. `Message` gives its
    exact text, written in short pieces that read the same as the source's
    literals, and `ReadMessage` reads a text back to the failure.
  - `Shaped` is the tree shape the registry keeps. The root is nobody's
    child. Every other node is the child of exactly one node under exactly
    one name, and every such name is a valid name. So no namespace is
    reachable by two paths (`FindPathInjective`).
- `Imports` (imports.dfy): import resolution, as `importSymbols` and the
  session's `importer` do it.
  - `ParseImport` parses a specifier, as the `reimp` pattern does.
  - `CheckImport` makes the three ordered access checks.
  - `ImportStep` gives what one specifier appends.
  - `Contributions` and `LastFailure` fold a whole `codefile` list.
- `Jsns` (jsns.dfy): the registry as objects.
  - `Registry` holds the closure state of the module: the tree, the fresh-identity
    counter, `sysns` and `lastError`. Its invariant `Valid` includes `Shaped`,
    and every method that changes the tree keeps it.
  - `Session` is the handle `nsmgr.namespace(path)` returns. It has a rebindable
    current node, a fixed path, and the `sys` argument for registrant callbacks.
  - The loops of the source are methods with loop invariants: the path descent,
    the symbol push, the export-table copies and the `codefile` loop. Each is
    proved to compute its specification function.
  - Every state-changing method states the whole new state in terms of the `Tree`
    and `Imports` functions.
- `Usage` (usage.dfy): one registration followed end to end. A registrant
  creates `$.util`, publishes `double` and seals it. A second session creates
  `$.app` and lists `$.util:double` in `codefile`. It then receives exactly that
  export and no error is recorded.

JavaScript objects become values:
- A namespace is a `Node` record: exports, children, sealed flag, access level.
- An export-table entry is either the self-removing `$seal` closure (`SealHook`)
  or a registrant value of the uninterpreted type `Value`.
- A non-string `access` argument is `None`.
- Calling a registrant callback is modelled by returning the arguments it
  would be called with (`Call`).

## Model

| member | source | states |
|---|---|---|
| Text.Split | src/jsns.js:27 | `path.split(".")` always gives at least one part, and no part contains the separator |
| Text.SplitNoSeparator | src/jsns.js:27 | a path without a dot is a single segment |
| Text.SplitConcat | src/jsns.js:27 | the segments of `a.b` are those of `a` followed by those of `b` |
| Text.JoinSplit | src/jsns.js:27-32 | joining the split path with "." gives the path back, so the path in error messages is the path given |
| Text.SplitJoin | src/jsns.js:27 | splitting a join of dot-free segments gives the segments back |
| Text.IsSpace | src/jsns.js:34 | defines the code points of `\s`, which are also those `trim()` strips (line 131): the ECMAScript white space and line terminators |
| Text.IsBlank | src/jsns.js:34 | defines `/^\s*$/.test(part)`: empty or made of those code points only |
| Text.IsValidName | src/jsns.js:51 | defines the name pattern `/^[A-Za-z$][A-Za-z0-9_\-$]*$/`: a letter or `$`, then letters, digits, `_`, `-` or `$` |
| Text.ValidNameIsSegment | src/jsns.js:51 | a name accepted by the name pattern is never blank and contains no dot, so it is exactly one path segment |
| Text.FirstIndex | src/jsns.js:111 | the first colon of a specifier: no colon before it, a colon at it, or the length when there is none |
| Text.FirstIndexAt | src/jsns.js:111 | the first occurrence is unique: any index with those properties is FirstIndex |
| Text.LeadingSpaces | src/jsns.js:131 | the run of spaces a symbol name starts with is maximal |
| Text.TrailingSpaces | src/jsns.js:131 | the run of spaces a symbol name ends with is maximal |
| Text.Trim | src/jsns.js:131 | `trim()` gives a slice of the input that has only spaces around it and no space at either end; it is empty exactly when the input is blank |
| Text.TrimUnspaced | src/jsns.js:131 | trimming a name with no space at either end leaves it unchanged |
| Tree.AccessFor | src/jsns.js:79-86 | a level name that is "public", "protected" or "private" gives that level; a level other than public comes only from its own name, so any other argument gives public |
| Tree.NewNode | src/jsns.js:69-78 | defines a new namespace: a table holding only `$seal`, no children, open, with the level AccessFor gives |
| Tree.Message | src/jsns.js:20-24 | defines the exact text `_err` records for each failure (lines 32-94, 122-126, 144, 155-157, 231, 258-275) |
| Tree.ReadMessage | src/jsns.js:20-24 | defines how a description is read back: by the characters that tell the texts apart, then the path or target that follows the fixed part |
| Tree.RefusalRead | src/jsns.js:122-126 | the four refusal texts, from either `importSymbols` or the importer, read back to the refusal they report |
| Tree.MessageRead | src/jsns.js:20-24 | every description reads back to the failure it reports; only the private and unsealed refusals lose which caller made them |
| Tree.MessageIdentifies | src/jsns.js:122-126 | two failures have the same text iff they report the same failure; so "nested ones" (line 156) and "inner namespaces" (line 124) are told apart, and the path in a text is the path given |
| Tree.MessageNames | src/jsns.js:287-289 | the text of a failure is shared exactly by the failures it cannot be told apart from |
| Tree.Walk | src/jsns.js:31-40 | the descent: when it finds a node, that node is in the tree |
| Tree.FindPath | src/jsns.js:25-49 | the node a path leads to when the descent finds every segment, otherwise "namespace not found" or "empty part" for that path |
| Tree.RootFound | src/jsns.js:11-16 | in every tree the path "$" leads to the root |
| Tree.WalkSnoc | src/jsns.js:31-40 | the descent goes one segment at a time: walking `q + [s]` walks `q`, then takes child `s` of the node reached |
| Tree.WalkBlankFails | src/jsns.js:31-40 | a blank segment makes the descent fail whatever the tree holds; it is reported as blank when every earlier segment was found |
| Tree.BlankSegmentNotFound | src/jsns.js:32-34 | a path with an empty or blank segment (such as "a..b") never resolves |
| Tree.WalkExtends | src/jsns.js:87 | adding nodes and child links never changes where a resolved path leads |
| Tree.ChildPath | src/jsns.js:35-42 | when `parent` leads to a node with child `name`, the path `parent.name` leads to that child |
| Tree.WalkMissingAbsent | src/jsns.js:31-40 | a segment that is neither blank nor a child, after segments that were all found, makes the descent report a missing level whatever follows, blank or not |
| Tree.MissingSegmentNotFound | src/jsns.js:32-44 | such a path gives "namespace not found" for itself, even when a later segment is blank |
| Tree.LastLink | src/jsns.js:35-39 | a path of one segment that resolves leads to the root; the node a longer path leads to is linked, under its last segment, from the node the rest of the path leads to |
| Tree.WalkInjective | src/jsns.js:31-40 | in a tree, two segment lists that lead to the same node are equal |
| Tree.FindPathInjective | src/jsns.js:25-49 | in a tree, two paths that resolve to the same namespace are the same path: no namespace is reachable by two paths |
| Tree.WalkSameShape | src/jsns.js:31-40 | the descent depends only on the child links of the nodes |
| Tree.FindPathSameShape | src/jsns.js:273-278 | writing exports or sealing, which keep every node's children, changes no lookup |
| Tree.ShapedRoot | src/jsns.js:11-16 | the initial tree, the root alone, has the tree shape |
| Tree.ShapedSameShape | src/jsns.js:273-278 | writing exports or sealing, which keep every node and its children, keeps the tree shape |
| Tree.AddChild | src/jsns.js:68-88 | a new child of the base: a fresh identity, public unless `access` is "protected" or "private", open, exporting only `$seal`; nothing else changes |
| Tree.AddChildShaped | src/jsns.js:87 | linking a fresh node under a valid, unused name keeps the tree shape: the root has no parent, every other node exactly one, and every link name is a valid name |
| Tree.CreateChild | src/jsns.js:50-96 | the checks in source order (name, base, existing child, join, sealed child, access, sealed base), each failure's error and an unchanged tree; otherwise the joined child, or a new child added to the base |
| Tree.CreateChildShaped | src/jsns.js:50-96 | every create or join, successful or not, keeps the tree shape |
| Tree.CreateThenFind | src/jsns.js:50-96 | after a successful create or join, `parent.name` leads to the node returned, and every path that resolved before still leads to the same node |
| Tree.JoinIdempotent | src/jsns.js:54-63 | with no access string or one of the three level names, a second identical join returns the same node and changes nothing |
| Tree.JoinUnknownAccessRefusedTwice | src/jsns.js:58-61 | in any tree, under any open base without that child, an access string that is none of the three names makes the first join create a public node and the identical second join fail with the access-level error |
| Imports.ParseImport | src/jsns.js:111 | an accepted specifier is well formed: a non-empty path without a colon, and an optional non-empty symbol list without line terminators; the specifier is its path, plus ":" and the list when there is one |
| Imports.ParseUnparse | src/jsns.js:117-119 | every well-formed specifier is accepted with its own groups (with ParseImport: exactly the well-formed texts match) |
| Imports.CheckImport | src/jsns.js:122-126 | an import is admitted iff the node is sealed and either public, or protected with its path a literal prefix of the calling path; private, then protected, then unsealed is the order of refusal |
| Imports.ProtectedPrefixIsTextual | src/jsns.js:124 | "a.b.c" may import the protected "a.b" and "a.c" or "x.y" may not, but because the prefix test is textual "a.bc" may too |
| Imports.SymbolNames | src/jsns.js:128-131 | one trimmed name per comma-separated part of the symbol list |
| Imports.ImportStep | src/jsns.js:112-148 | defines `importSymbols` on one specifier: parse, lookup, the checks, then the push (its meaning is ImportStepMeaning) |
| Imports.ImportStepMeaning | src/jsns.js:112-148 | one specifier: syntax error, or not found with the accumulator kept, or the first failing check; otherwise the accumulator followed by one lookup per listed name in order, or by a copy of the whole table |
| Imports.ImportListed | src/jsns.js:127-134 | an admitted symbol list appends the looked-up export of each trimmed name, absent when not exported |
| Imports.ImportStepAppends | src/jsns.js:112-148 | the outcome of a specifier does not depend on the accumulator, which stays the prefix of the result |
| Imports.Contributions | src/jsns.js:232-236 | defines the imports a `codefile` list contributes: the values its successful specifiers push, each resolved on its own against the session path, in list order |
| Imports.LastFailure | src/jsns.js:234 | defines the error a `codefile` list leaves recorded: that of its last refused or missing specifier, or the earlier error when none fails |
| Imports.CollectedConcat | src/jsns.js:232-236 | the values collected from two runs of outcomes follow one another |
| Imports.CollectedSingletons | src/jsns.js:232-236 | outcomes that each push one value collect to exactly those values |
| Imports.FoldStep | src/jsns.js:234 | one more specifier of the `codefile` loop: the contributions grow by what it pushes, and the last error becomes its error when it fails |
| Imports.ContributionsConcat | src/jsns.js:229-238 | the imports a list contributes are those of its parts in declaration order |
| Imports.ContributionsOnePerWhole | src/jsns.js:229-238 | a list of whole-namespace specifiers contributes exactly one argument per specifier, the export table of that namespace |
| Jsns.CopyExports | src/jsns.js:170-179 | the `for (k in x)` copy of an export table has exactly the entries of the original |
| Jsns.PushSymbols | src/jsns.js:130-133 | the push loop appends one lookup per listed name, in order |
| Jsns.Registry.constructor | src/jsns.js:2-19 | the registry starts with the public, open root "$" alone, no system namespace and no last error |
| Jsns.Registry.LastError | src/jsns.js:287-289 | `lasterror()` is null exactly while nothing failed; otherwise its text equals `Message(e)` exactly for the failures `e` that the recorded one cannot be told apart from, so the text names the failure |
| Jsns.Registry.Report | src/jsns.js:20-24 | `_err` records the description as the last error |
| Jsns.Registry.Locate | src/jsns.js:26-45 | the descent loop returns FindPath of the current tree |
| Jsns.Registry.FindNamespace | src/jsns.js:25-49 | the node, or null with the error of FindPath recorded; otherwise the last error is kept |
| Jsns.Registry.CreateNamespace | src/jsns.js:50-96 | the tree, counter, result and last error become those of CreateChild; the tree invariant is kept |
| Jsns.Registry.Publish | src/jsns.js:207-210 | a registrant's `ownns[key] = v` sets that one entry of the live export table; no seal check applies |
| Jsns.Registry.CallSealHook | src/jsns.js:71-74 | `$seal()` succeeds iff the table still holds the seal closure; it then seals the node and removes itself, otherwise nothing changes |
| Jsns.Registry.ResolveImport | src/jsns.js:112-148 | parse, lookup, checks and push compute ImportStep of the current tree |
| Jsns.Registry.ImportSymbols | src/jsns.js:112-148 | the new accumulator, the old one when the path is missing, null when refused; the error is recorded unless the import succeeded |
| Jsns.Registry.Namespace | src/jsns.js:151-191 | a fresh session exactly when the path resolves, on that node and path, with a copy of the system namespace's exports or the designator; otherwise null and the error recorded |
| Jsns.Session.constructor | src/jsns.js:188-192 | a session is bound to a registry, its path, the node found and its `sys` argument |
| Jsns.Session.Create | src/jsns.js:242-246 | the tree changes as CreateChild says, the session is rebound to its result (null on failure), and a failure is recorded |
| Jsns.Session.Join | src/jsns.js:239-241 | `join(name)` is `create(name, true)` with no access string |
| Jsns.Session.Public | src/jsns.js:247-249 | `public(name)` is a join with access "public" |
| Jsns.Session.Protected | src/jsns.js:250-252 | `protected(name)` is a join with access "protected" |
| Jsns.Session.Private | src/jsns.js:253-255 | `private(name)` is a join with access "private" |
| Jsns.Session.Seal | src/jsns.js:273-278 | the first seal of the current node succeeds and sets only its flag; a second is refused with "already sealed" and changes nothing |
| Jsns.Session.Code | src/jsns.js:207-212 | the callback gets the `sys` argument and the node's own table unless the node is sealed ("namespace is sealed"); nothing happens after a failed create |
| Jsns.Session.CodeFile | src/jsns.js:229-238 | the callback gets `sys`, the own table and exactly the Contributions of the list in order, and the last error is LastFailure of the list; a sealed node is refused |
| Jsns.Session.Import | src/jsns.js:256-266 | a copy of the table iff the node is public and sealed; access is checked before the seal, each with its own error |
| Jsns.Session.Ref | src/jsns.js:267-272 | the named export (absent if not exported) iff the node is sealed and public; the seal is checked before access |
| Jsns.Session.Importer | src/jsns.js:152-169 | the failed lookup's error, or the first failing check against the session's own path, or one export for a string `ref` or else a copy of the whole table |
| Jsns.Session.SealSystem | src/jsns.js:183-187 | designation succeeds iff no system namespace is set and the session has a node; the session's `sys` then becomes a copy of its exports; otherwise nothing changes |
| Usage.RegisterUtility | src/jsns.js:207-212 | a registrant session on "$" creates "util", publishes `double` into the table `code` hands out and then calls `seal()`; the result is the expected two-node tree, and no error is recorded |
| Usage.ImportUtil | src/jsns.js:127-134 | in any tree where "$.util" is sealed, public and exports `double`, the list ["$.util:double"] contributes exactly that export with no error |
| Usage.ShareUtility | src/jsns.js:229-238 | with "$.util" registered, a second session's `codefile(["$.util:double"])` receives exactly that export and no error is recorded |

## Left out

- Console output of `_err` (src/jsns.js:22) is output only; the recorded description is modelled.
- Running the registrant callbacks is left out: they are foreign code. `Code` and `CodeFile` return the arguments the callback would receive (`Call`). The importer closure passed to it is the `Session.Importer` method.
- `Object.seal` on returned copies (src/jsns.js:165, 264) is not modelled: export tables are immutable values here.
- The `Namespace` constructor and its `code` method (src/jsns.js:100-109) are unreachable and syntactically broken code, so they are not modelled.
- Paths given as arrays and non-string paths or specifiers (src/jsns.js:29, 46-47, 116) are left out: the registry's own callers always pass strings. `arr == null` (src/jsns.js:115) is left out for the same reason, since `codefile` always passes an array.
- Names inherited through the JavaScript object prototype (such as `toString` as a child or export name) are not modelled: maps hold only the own entries.
- The enclosing module function and its `window` argument are left out; they only bind the registry as `jsns`.
- `version()` (src/jsns.js:290-292) is the constant `Jsns.Version`, which has no contract.
- The `switch` at src/jsns.js:79-86 writes `case: "protected":`, which is not valid JavaScript. It is modelled by its evident meaning: "protected" and "private" select those levels, anything else gives public.
- The `codefile` loop at src/jsns.js:233-234 is syntactically broken too: a missing parenthesis, an empty loop body, and `i` never incremented. It is modelled by its evident meaning: one `importSymbols` call per specifier, in order, all into one accumulator.
- Jsns.Session.SealSystem: the exception `_setsysns` throws is modelled as `ok == false` with nothing changed. This covers both the already-set case and the null node.
- Other sessions' `sys` arguments are fixed when the session is made, as `_sysns` is. A later designation does not reach them.

## Where the code and the design differ

The model follows the code in each case:

- A blank segment that comes after a missing one is reported as "namespace not found", not as "empty part". The loop tests for a missing level before it tests the segment (`Tree.MissingSegmentNotFound`).
- The name is checked before the base, and both before the sealed-base check. An invalid name under a sealed parent reports the name.
- Designating the system namespace a second time throws even for the same node, so it is never a no-op (`Jsns.Session.SealSystem`).
- The protected check is a textual prefix test, so "a.bc" may import the protected "a.b" (`Imports.ProtectedPrefixIsTextual`).
- Joining is idempotent only for the three level names. With an unknown access string the second join is refused (`Tree.JoinUnknownAccessRefusedTwice`).
- A session's path (`current_ns_path`) stays the path it was made for after `create` rebinds its node. Protected checks in `codefile` and `importer` use that path.
- `import()` checks access before the seal, while `ref()` checks the seal before access.
- Publishing into an export table is not checked against the seal: the table is handed out live by `code`.
