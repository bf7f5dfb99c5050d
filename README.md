# Type-dependency scanner for C/C++ sources, modelled in Dafny

The system scans folders of C and C++ sources. For each file it does three things:

- it drops blank and `//` comment lines;
- it finds the types the file declares (`class`, `struct`, `enum`, `enum class` followed by an identifier), each paired with the code that follows its declaration;
- it collects the headers the file `#include`s.

Each declared type becomes a node. A type `T` declared in file `f` gets an edge to every type `U` that is declared in a file `f` includes and that `T`'s code mentions. The edge is labelled INHERITANCE, COMPOSITION or METHOD, depending on where and how `U` is mentioned. The graph is checked, and its nodes and edges can be written out as JSON records.

The model has one module per source file, plus two small support modules:

- `Wrappers` (`wrappers.dfy`): the `Option` type.
- `Text` (`text.dfy`): the string operations the scanner relies on. These are `str.strip`, `str.split`, `str.join`, `str.rfind`, `os.path.basename` and `os.path.splitext`, over ASCII characters.
- `DataStructures` (`data_structures.dfy`):
  - the enums `RefType`, `SourceType` and `TypeClassifier`, with their `parseval` pattern lookups;
  - the records `TypeNode`, `SourceNode`, `CodeNode` and `EdgeNode`, with their `__eq__`;
  - the JSON encoder (`CustomEncoder.default`) and decoder (`TypeDependencyDecoder.object_hook`).

  Python values whose type matters to `isinstance` are modelled as the sum type `PyValue`.
- `SrcAnalyzer` (`src_analyzer.dfy`):
  - `search_type_declares`: `re.split` on the declaration pattern, then `re.findall` on each piece;
  - `src_proc`: the line filter, and `findall` of the include pattern.

  Both regular expressions are written out as scanners. The include scanner is proved to agree with a separate reading of its pattern: each target `findall` reports is the capture of an `#include` directive, and the first directive at or after any position is the next target reported.
- `DependencyGen` (`dependency_gen.dfy`):
  - `normalize`, `skip`, `fieldMatch`, `methodMatch` and `symbol_search`;
  - `source_proc`, as a sequential scan of a folder's files;
  - `dep_analysis`, which merges the scans and builds the nodes and edges;
  - `verify_data`.

Where the specification and the code differ, the model follows the code:

- `symbol_search` (dependency_gen.py:145-148) labels a type METHOD when any statement mentioning it contains `(` or `)`. It does not require both.
- The class-body pass overwrites the INHERITANCE label set by the inheritance pass. So a type has one edge kind per caller, not both.

## Model

| member | source | states |
|---|---|---|
| Text.RFind | dependency_gen.py:28 | The result is -1 exactly when the character is absent. Otherwise the character is at the result and nowhere after it. |
| Text.Strip | src_analyzer.py:72 | The result is no longer than the input, and it neither starts nor ends with whitespace. |
| Text.StripIsInfix | src_analyzer.py:72 | The stripped line is a slice of the original, with only whitespace cut on either side. |
| Text.StripIdempotent | src_analyzer.py:72 | Stripping twice is stripping once. |
| Text.SplitOn | dependency_gen.py:142 | `split(';')` gives at least one piece, and no piece contains the separator. |
| Text.JoinSplitOn | dependency_gen.py:142 | Joining the pieces with the separator gives back the original body. |
| Text.Basename | src_analyzer.py:35 | The base name has no '/'. It is a suffix of the path, preceded by '/' when shorter than the path. |
| Text.SplitExt | src_analyzer.py:36 | The root plus the extension is the path. The extension is empty, or it is a '.' followed by neither another '.' nor a '/'. |
| Text.SplitExtOfBasename | src_analyzer.py:35-36 | The extension is non-empty exactly when the base name has a '.' after some non-dot character. In that case it is the base name from its last '.'. Splitting the path and splitting its base name give the same extension. |
| DataStructures.FirstMatch | data_structures.py:19-21 | The loop returns the first item that matches: no earlier item matches. It returns None exactly when no item matches. |
| DataStructures.ParseSourceType | data_structures.py:13-21 | HEADER exactly for ".h" and ".hpp". CPP exactly for ".c", ".cc", ".cpp" and ".c++". None exactly when no member's pattern fully matches. |
| DataStructures.ParseClassifier | data_structures.py:24-33 | ENUM exactly for "enum" and "enum class". STRUCT exactly for "struct". CLASS exactly for "class". None exactly when no pattern fully matches. |
| DataStructures.PatternsDisjoint | data_structures.py:13-33 | No symbol fully matches the patterns of two different members, so the loop order of `parseval` never matters. |
| DataStructures.NewSourceNode | data_structures.py:62-64 | sourceName + sourceType is the file name. sourceType is empty or a single '.'-suffix of the base name. |
| DataStructures.TypeNodeEq | data_structures.py:49-56 | `TypeNode.__eq__`: only a value that passes the `isinstance(other, TypeNode)` test can compare equal. |
| DataStructures.SourceNodeEq | data_structures.py:69-74 | `SourceNode.__eq__`: only a value that passes the `isinstance(other, SourceNode)` test can compare equal. |
| DataStructures.TypeNodeEqIsValueEquality | data_structures.py:49-56 | `TypeNode.__eq__` holds exactly when the other value is a TypeNode with the same four fields. |
| DataStructures.SourceNodeEqIsValueEquality | data_structures.py:69-74 | `SourceNode.__eq__` holds exactly when the other value is a SourceNode with the same name and type. |
| DataStructures.NewSourceNodeInjective | data_structures.py:62-74 | Two SourceNodes built from file names are equal exactly when the file names are equal. |
| DataStructures.EdgeNodeEq | data_structures.py:132-138 | `EdgeNode.__eq__` as written: only a TypeNode passes its `isinstance` test, so no edge can compare equal. |
| DataStructures.EdgeNodeEquals | data_structures.py:132-138 | The intended `EdgeNode.__eq__`: only another edge can compare equal. |
| DataStructures.EdgeNodeEqNeverHolds | data_structures.py:132-138 | As written, `EdgeNode.__eq__` is False for every other value, the edge itself included. |
| DataStructures.EdgeNodeEqualsIsValueEquality | data_structures.py:123-138 | The corrected equality holds exactly when the other value is an edge with the same caller, callee and refType. It is reflexive. |
| DataStructures.ClassifierByName | data_structures.py:117 | `TypeClassifier[name]` is defined exactly for "ENUM", "STRUCT" and "CLASS". The result's name is the string looked up. |
| DataStructures.SourceTypeByName | data_structures.py:117 | `SourceType[name]` is defined exactly for "HEADER" and "CPP". The result's name is the string looked up. |
| DataStructures.RefTypeByName | data_structures.py:119 | `RefType[name]` is defined exactly for "INHERITANCE", "COMPOSITION" and "METHOD". The result's name is the string looked up. |
| DataStructures.MemberNamesRoundTrip | data_structures.py:102-119 | Looking up a member by its `.name` gives back that member, for all three enums. |
| DataStructures.EncodeNode | data_structures.py:101-102 | A node encodes exactly when its classifier and source type are set. It encodes to an object with exactly the keys name, classifier, sourceName and sourceType, carrying the node's name and source name. |
| DataStructures.EncodeEdge | data_structures.py:103-106 | An edge encodes exactly when both endpoints do. It encodes to an object with exactly the keys caller, callee and refType, holding the endpoints' encodings and the refType's name. |
| DataStructures.ObjectHook | data_structures.py:115-120 | A dict with the four node keys becomes a node exactly when name and sourceName are strings and both enum names are known. Otherwise a dict with the three edge keys becomes an edge exactly when the refType name is known. That edge's caller and callee are the dict's values, nodes or not. Any other dict comes back unchanged. |
| DataStructures.NewEdge | data_structures.py:118-119 | `EdgeNode(caller, callee, refType)` stores what it is given: reading the three attributes back gives the arguments. |
| DataStructures.Load | data_structures.py:111-120 | A string decodes to itself. An object decodes only when each of its members decodes. |
| DataStructures.EncodeEndpoint | data_structures.py:104-105 | A string endpoint encodes to itself. Only strings and nodes encode. |
| DataStructures.Encode | data_structures.py:99-108 | Only nodes and edges encode, and always to JSON objects. An edge encodes exactly when each endpoint is a string or a node that encodes. |
| DataStructures.LoadObject | data_structures.py:111-120 | Decoding an object decodes its members first, then applies the hook to them. |
| DataStructures.LoadNodeRecord | data_structures.py:116-117 | A four-key node record decodes exactly when both enum names are known. It then decodes to the TypeNode with those fields. |
| DataStructures.NodeRoundTrip | data_structures.py:99-120 | Decoding an encoded node gives back the same node. |
| DataStructures.LoadEdgeRecord | data_structures.py:111-120 | An edge record whose endpoint records decode to nodes decodes to the hook applied to those nodes. |
| DataStructures.EdgeHook | data_structures.py:118-119 | The hook builds the edge exactly when the refType name is known. |
| DataStructures.EdgeRoundTrip | data_structures.py:99-120 | Decoding an encoded edge gives back the same edge. |
| DataStructures.EncodeLoadEncode | data_structures.py:99-120 | Whatever encodes also decodes, and re-encoding the decoded value gives the same JSON. This holds for nodes, edges and edges with string endpoints. |
| DataStructures.EndpointRoundTrip | data_structures.py:104-105 | An endpoint's encoding decodes back to the endpoint. |
| DataStructures.LooseEdgeRoundTrip | data_structures.py:103-120 | An edge whose endpoints are strings or nodes decodes to an edge with the same endpoints and refType, and that edge encodes to the same JSON. |
| DataStructures.LoadEdgeRecordUnknownRefType | data_structures.py:118-119 | An edge record whose refType is not a RefType name fails to decode. |
| SrcAnalyzer.FilterLines | src_analyzer.py:72 | The list comprehension yields at most one line per input line. |
| SrcAnalyzer.FilterLinesAppend | src_analyzer.py:72 | The filter distributes over concatenation, so it keeps the order of the lines. |
| SrcAnalyzer.FilterLinesMember | src_analyzer.py:72 | A given string is kept exactly when it is the stripped form of some input line that survives the filter. |
| SrcAnalyzer.FilterLinesMembers | src_analyzer.py:72 | The same, for every string at once. |
| SrcAnalyzer.FilterLinesAreCode | src_analyzer.py:72 | Every kept line is stripped, non-empty and not a `//` comment. |
| SrcAnalyzer.HeadKeyword | src_analyzer.py:27 | The keyword a declaration head starts with parses as a TypeClassifier. |
| SrcAnalyzer.HeadIdent | src_analyzer.py:27 | The name a declaration head captures is an identifier. |
| SrcAnalyzer.HeadKeywordText | src_analyzer.py:27 | The captured keyword is the text before the blanks. |
| SrcAnalyzer.HeadBlock | src_analyzer.py:24-28 | The head cut out by the split pattern is matched again by the type pattern, with the same keyword and name, across its whole length. |
| SrcAnalyzer.FindHead | src_analyzer.py:24-25 | The first position from `from` at which the declaration pattern matches. There is no match before it. |
| SrcAnalyzer.NextHead | src_analyzer.py:41 | The next head's bounds are ordered, and they are empty only at the end of the text. |
| SrcAnalyzer.NextHeadIsFound | src_analyzer.py:41 | The next head starts at the first match and spans the whole head. |
| SrcAnalyzer.SplitFrom | src_analyzer.py:41 | `re.split` always returns at least one piece. |
| SrcAnalyzer.SplitFromAlternates | src_analyzer.py:41 | From any position, the pieces alternate between text with no head and a captured head. |
| SrcAnalyzer.SplitFromConcat | src_analyzer.py:41 | From any position, the pieces concatenate to the rest of the text. |
| SrcAnalyzer.SplitHeadsShape | src_analyzer.py:41 | Splitting the code on the capturing pattern gives an odd number of pieces. The pieces alternate between text with no head and a head, and together they are the code. |
| SrcAnalyzer.AlternatesAt | src_analyzer.py:41-44 | In an alternating split, every even piece has no head and every odd piece is a head. |
| SrcAnalyzer.ParseHead | src_analyzer.py:43-45 | When `findall` finds a declaration, its first match has a classifier keyword and an identifier. |
| SrcAnalyzer.TextBlockParse | src_analyzer.py:43-44 | A piece with no head yields no declaration. |
| SrcAnalyzer.HeadBlockParse | src_analyzer.py:43-45 | A captured head yields exactly its own keyword and name. |
| SrcAnalyzer.HeadNode | src_analyzer.py:49-53 | The TypeNode built for a head has an identifier name, a classifier and the file's name and source type. |
| SrcAnalyzer.Declared | src_analyzer.py:43-53 | A piece declares at most one type, and that type carries the file's name and source type. |
| SrcAnalyzer.CollectedDeclarations | src_analyzer.py:42-53 | A type is a key exactly when some piece with a successor declares it. Its value is the piece after the last piece that declares it. |
| SrcAnalyzer.TextBlocksOfSplit | src_analyzer.py:41-44 | The split has an odd length, and its even pieces declare nothing. |
| SrcAnalyzer.HeadBlocksOfSplit | src_analyzer.py:41-53 | Every odd piece of the split is a head and declares the node built from it. |
| SrcAnalyzer.CollectedKey | src_analyzer.py:42-53 | In an alternating split, the keys are exactly the types declared at head pieces. |
| SrcAnalyzer.CollectedValue | src_analyzer.py:42-53 | In an alternating split, each type maps to the text piece after its last declaring head. |
| SrcAnalyzer.DeclarationKeys | src_analyzer.py:31-54 | A type is a key of the dictionary exactly when a head of the code declares it. |
| SrcAnalyzer.DeclarationFields | src_analyzer.py:35-53 | Every key has an identifier name and a classifier. Its sourceName is the file stem, and its sourceType is the parsed extension. |
| SrcAnalyzer.DeclarationValues | src_analyzer.py:41-53 | Each declared type maps to the code piece after its last declaration (a later declaration overwrites an earlier one). |
| SrcAnalyzer.DeclaredStep | src_analyzer.py:43-53 | A piece that declares something has a successor. It declares the node built from its first `findall` match. |
| SrcAnalyzer.SearchTypeDeclares | src_analyzer.py:31-54 | The loop builds exactly the declarations dictionary, and every key is well formed. |
| SrcAnalyzer.IncludeCapture | src_analyzer.py:19 | The captured include target never spans a line break. |
| SrcAnalyzer.IncludesFrom | src_analyzer.py:76 | None of the `findall` targets spans a line break. |
| SrcAnalyzer.MatchIsDirective | src_analyzer.py:19 | Where the scanner matches, the text holds a directive read straight from the pattern. It has "#include", a whitespace run, an opening quote, the capture, and a closing quote with no other closing quote later on that line. |
| SrcAnalyzer.DirectiveIsMatch | src_analyzer.py:19 | Conversely, such a directive is a scanner match with the same capture and the same end. |
| SrcAnalyzer.IncludesFromFirst | src_analyzer.py:76 | `findall` reports the capture of the first directive at or after its position, then resumes just after that directive's closing quote. |
| SrcAnalyzer.IncludesFromNone | src_analyzer.py:76 | With no directive left in the text, `findall` reports nothing more. |
| SrcAnalyzer.IncludeTargetIsDirective | src_analyzer.py:76 | Every target `findall` reports is the capture of a directive in the text. |
| SrcAnalyzer.IncludedSource | src_analyzer.py:77-80 | A target is kept only with a non-empty extension. The SourceNode built from its base name has no '/'. |
| SrcAnalyzer.IncludedSourcesShape | src_analyzer.py:75-80 | Every included SourceNode has a non-empty extension, and it is the base name of one of the targets. |
| SrcAnalyzer.IncludedFiles | src_analyzer.py:75-80 | The loop over the targets collects exactly the SourceNodes of the targets' base names that have an extension. |
| SrcAnalyzer.CodeText | src_analyzer.py:72-73 | The joined code is empty exactly when no line survives the filter. |
| SrcAnalyzer.SrcProc | src_analyzer.py:65-81 | It returns the declarations of the filtered, newline-joined code and the SourceNodes of its include targets. |
| DependencyGen.Normalize | dependency_gen.py:25-30 | The base name up to its last '.'. The whole base name when there is no '.'. |
| DependencyGen.NormalizeIsSourceName | dependency_gen.py:25-30 | It agrees with the SourceNode name whenever the extension is non-empty. It differs only for base names made of dots before their last '.'. |
| DependencyGen.Skip | dependency_gen.py:33-41 | Anything under "/tests/" is skipped. A directory is skipped exactly when it is under "/tests/". |
| DependencyGen.SkipAgreesWithSourceType | dependency_gen.py:33-41 | A file outside "/tests/" is kept exactly when its extension parses as a SourceType and is not ".c++". |
| DependencyGen.WholeWordFrom | dependency_gen.py:141-142 | `\b{name}\b` occurs from `from` exactly when a whole-word occurrence exists there. |
| DependencyGen.LeadMatchFrom | dependency_gen.py:117-119 | `re.match(\W*{name}\W*)` succeeds exactly when a run of non-word characters leads to the name. |
| DependencyGen.FieldMatch | dependency_gen.py:116-121 | True exactly when some statement starts with the name and has no parenthesis. |
| DependencyGen.MethodMatch | dependency_gen.py:124-129 | True exactly when some statement starts with the name and has both parentheses. |
| DependencyGen.FieldMethodExclusive | dependency_gen.py:116-129 | No single statement is both a field and a method statement. |
| DependencyGen.MatchingStatements | dependency_gen.py:142 | The statements kept are exactly those containing the name as a whole word. |
| DependencyGen.BodyStatementsMention | dependency_gen.py:139-148 | Some statement mentions the type exactly when the body mentions it. The statements make it METHOD exactly when one of them has a parenthesis. |
| DependencyGen.SymbolDepsOf | dependency_gen.py:132-150 | A candidate type is a dependency exactly when it is named in the inheritance clause or mentioned in the body. It is INHERITANCE exactly when the body does not mention it, METHOD exactly when a mentioning statement has a parenthesis, and COMPOSITION otherwise. |
| DependencyGen.ClassifyBody | dependency_gen.py:139-148 | The body pass keeps the earlier entries and sets each mentioned type's label from its statements. |
| DependencyGen.SymbolSearch | dependency_gen.py:132-150 | The two loops compute exactly the dependency map above. |
| DependencyGen.MergedKeys | dependency_gen.py:161-166 | After the `update`s, a key is present exactly when some folder's dictionary has it. |
| DependencyGen.MergedLaterWins | dependency_gen.py:161-166 | A key takes its value from the last folder that has it. |
| DependencyGen.MergeScans | dependency_gen.py:161-166 | The loop yields the merged includes and declares of all folders, in order. |
| DependencyGen.NodesNonEmpty | dependency_gen.py:168 | There is a node exactly when some file declares some type. |
| DependencyGen.IncludedTypeDeclared | dependency_gen.py:154-159 | Every included type is declared in a file the source includes, and it is a node. |
| DependencyGen.GetIncludedTypes | dependency_gen.py:154-159 | The nested loops collect exactly the types declared in the included files. |
| DependencyGen.EdgeEndpoints | dependency_gen.py:169-176 | Both ends of every edge are nodes. The callee is declared in a file the caller's file includes. |
| DependencyGen.AddTypeEdges | dependency_gen.py:175-176 | The edge set gains exactly one edge per dependency of the type, and nothing else. |
| DependencyGen.BuildEdges | dependency_gen.py:169-176 | An edge is built exactly when its caller is declared in some file and its callee is a dependency found in the caller's code among the included types. |
| DependencyGen.DepAnalysis | dependency_gen.py:153-177 | The nodes are all declared types. The edges are exactly the dependency edges of the merged scans, and every edge joins two nodes. |
| DependencyGen.ReferencedMeaning | dependency_gen.py:190 | A type is referenced exactly when it is the caller or callee of some edge. |
| DependencyGen.VerifyData | dependency_gen.py:180-195 | As written, the name check never fails. The edge check fails exactly when some edge has an endpoint that is not a node. On success, the unreferenced types are the nodes no edge touches. |
| DependencyGen.DuplicateNameClashes | dependency_gen.py:181-183 | Two classes called `A` in different headers share a name. |
| DependencyGen.VerifyDataWithNames | dependency_gen.py:180-195 | With the names recorded, a conflict is reported exactly when two nodes share a name. Success happens exactly when there is no conflict and every edge's endpoints are nodes. |
| DependencyGen.AnalyzeAndVerify | dependency_gen.py:198-203 | The intended flow, using DependencyGen.DepAnalysis and DependencyGen.VerifyDataWithNames. The graph's nodes are the types the merged scans declare, and its edges are exactly the references `IsEdge` characterises. On that graph the endpoint check never fails, and a name conflict is reported exactly when two types share a name. |
| DependencyGen.ScriptFlow | dependency_gen.py:198-203 | The flow as written. It raises exactly when some scanned file declares a type. Otherwise validation passes with nothing unreferenced, so no name conflict is ever reported. |
| DependencyGen.EdgeNameRecord | dependency_gen.py:111 | The record `write_edges` writes has exactly the keys caller, callee and refType. |
| DependencyGen.EdgeNameRecordLoads | dependency_gen.py:111 | Decoding that record gives an edge whose endpoints are the plain type names, not the original edge. Re-encoding it gives the record back. |
| DependencyGen.StoredNonEmpty | dependency_gen.py:78-81 | The worker stores only non-empty declaration and include entries. |
| DependencyGen.StoredKeepsDeclaring | dependency_gen.py:78-79 | A file that declares types has an entry in the declarations map. |
| DependencyGen.StoredDeclaresKeys | dependency_gen.py:75-79 | A base name has a declarations entry exactly when some file with that base name declares a type. |
| DependencyGen.StoredDeclaresLaterWins | dependency_gen.py:75-79 | The entry holds the declarations of the last such file. |
| DependencyGen.StoredIncludesKeys | dependency_gen.py:75-81 | A base name has an includes entry exactly when some file with that base name includes a file. |
| DependencyGen.StoredIncludesLaterWins | dependency_gen.py:75-81 | The entry holds the includes of the last such file. |
| DependencyGen.ScanFile | dependency_gen.py:72-83 | One worker step runs `src_proc` on the file and stores its result under the file's SourceNode. |
| DependencyGen.ScanFolder | dependency_gen.py:65-97 | The scan of a folder is the results of every file, stored one after another. |
| DependencyGen.SymbolSearchOn | dependency_gen.py:132-139 | `symbol_search` completes exactly on a CodeNode. On any other value the attribute access fails. The dependencies it finds are among the candidates. |
| DependencyGen.DepAnalysisOnSegments | dependency_gen.py:168-176 | As written, over the code strings `src_proc` stores, the analysis fails exactly when some type is declared. Otherwise it gives an empty graph. |
| DependencyGen.SegmentsAnalysisFails | dependency_gen.py:134 | A scan in which any file declares a type makes the analysis fail. |
| DependencyGen.SegmentsAnalysisFailsOnOneClass | dependency_gen.py:134 | A header a.h declaring `class A` already makes the analysis fail. |

## Left out

- File input and output are left out:
  - reading a file is replaced by its list of lines;
  - `find_code_files` and `os.scandir` are left out, and a folder is the list of its files;
  - the files `write_nodes` and `write_edges` write are left out. The record written for a node is DataStructures.Encode's, and the one for an edge is DependencyGen.EdgeNameRecord;
  - JSON is a tree of values, not text, and `Json` has only strings and objects. Numbers, arrays, `true`, `false` and `null` cannot be represented, although `json.loads` accepts them and `object_hook` passes them through.
- The worker threads and the queue of `source_proc` are left out. Files are scanned one after another. With two files of the same base name, the one scanned later wins (DependencyGen.StoredDeclaresLaterWins, DependencyGen.StoredIncludesLaterWins). The thread order that decides this in the script is not modelled.
- DependencyGen.MergeScans: merges every file of every folder. The script can lose files when it is given two or more folders. Each `source_proc` call (dependency_gen.py:164-166) starts 7 daemon workers (dependency_gen.py:88-90). Each worker loops forever (dependency_gen.py:73) on the shared module-level queue (dependency_gen.py:17) and writes into the dicts of the call that started it. Workers left from an earlier call can take a later folder's files and store them in dicts that were already merged and are no longer read, so those files are missing from the result. Which files are lost depends on thread scheduling, which the model does not have.
- `print`, messages to stderr, `argparse`, the `__main__` demonstrations and `matching_brackets` are left out. None of them affects the results.
- The import of the third-party `graphviz` package at src_analyzer.py:9 is left out; nothing in the model draws graphs. The import at src_analyzer.py:11 names `Edge`, `NodeEncoder` and `EdgeEncoder`, which data_structures.py does not define. They are left out.
- `__hash__` and `__repr__` are left out. Dafny's value equality on the datatypes plays the role of the hash.
- Character classes (`\s`, `\w`, `\b`, `str.strip`) cover ASCII only. Python's are Unicode.
- Type names are assumed to be identifiers. The script pastes a name into a pattern without escaping it, so the regular-expression metacharacters such a name might contain are not modelled.
- DataStructures.Load: decoder failures (KeyError, TypeError) all become None. A record whose name fields are not strings decodes to None, where Python would build a node around the non-string value.
- DataStructures.ObjectHook: a node record whose name or sourceName is not a string decodes to None, where Python builds a node around the non-string value. An edge record's endpoints may be any decoded value.
- DataStructures.EncodeEndpoint: an edge endpoint that is neither a string nor a node (a dict, None, a number) is not encoded. The nodes and edges the analysis builds never hold one.
- DependencyGen.BuildEdges: the edges form a set with structural equality. Because `EdgeNode.__eq__` is always False, Python's set never merges two equal edges. This differs only when two files share a stem and a kind (foo.c and foo.cc) and declare the same type.
- DependencyGen.Skip: only the predicate on the path is modelled. Whether an entry is a file is a parameter.
- The iteration order of Python sets and dicts is not modelled. Every result here is a set or a map, so it does not depend on that order.

## Findings

| source | as written | input that shows it | evidently intended | confidence | as-written member | corrected member |
|---|---|---|---|---|---|---|
| data_structures.py:132-138 | `EdgeNode.__eq__` returns False unless `other` is a TypeNode. It then compares an edge's fields with a node's fields, so it is never True. | Any edge compared with itself | Equality on caller, callee and refType | not executed | DataStructures.EdgeNodeEqNeverHolds | DataStructures.EdgeNodeEqualsIsValueEquality |
| dependency_gen.py:134 | `src_proc` stores each type's code as a plain string (src_analyzer.py:53). `symbol_search` reads `code.inheritance_declare` from it, which raises AttributeError. | One header a.h declaring `class A {};` | The values are CodeNodes, as `source_proc`'s docstring (dependency_gen.py:69) says | not executed | DependencyGen.SegmentsAnalysisFailsOnOneClass | DependencyGen.DepAnalysis |
| dependency_gen.py:181-183 | `typeNames` is never filled, so the name-conflict assertion never fails. | Two classes `A` in a.h and b.h | Record each node under its name, and report a second node with the same name | not executed | DependencyGen.VerifyData | DependencyGen.VerifyDataWithNames |
