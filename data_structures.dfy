/**
 * The value model of the scanner: the three enumerations with their
 * text lookups, the node and edge records with the equality Python gives
 * them, and the record encoder and decoder used to persist them.
 *
 * Python values are dynamically typed, and several `__eq__` methods begin
 * with an `isinstance` test; `PyValue` is the universe of values those
 * methods can be handed.
 */
module DataStructures {
  import opened Wrappers
  import opened Text

  // ---------------------------------------------------------------------
  // Enumerations
  // ---------------------------------------------------------------------

  datatype RefType = Inheritance | Composition | Method

  datatype SourceType = Header | Cpp

  datatype TypeClassifier = Enum | Struct | Class

  /** The members in declaration order, as `list(SourceType)` yields them. */
  const SourceTypes: seq<SourceType> := [Header, Cpp]

  /** The members in declaration order, as `list(TypeClassifier)` yields them. */
  const TypeClassifiers: seq<TypeClassifier> := [Enum, Struct, Class]

  /**
   * The strings each member's pattern matches in full. The patterns are
   * alternations of literals: `\.h|\.hpp` and `\.c|\.cc|\.cpp|\.c\+\+`.
   */
  function SourceTypePattern(st: SourceType): set<string>
  {
    match st
    case Header => {".h", ".hpp"}
    case Cpp => {".c", ".cc", ".cpp", ".c++"}
  }

  /** The strings `enum(?: class)?`, `struct` and `class` match in full. */
  function ClassifierPattern(tc: TypeClassifier): set<string>
  {
    match tc
    case Enum => {"enum", "enum class"}
    case Struct => {"struct"}
    case Class => {"class"}
  }

  /** The first item of `items` that `matches` accepts, as a `for ... return` loop finds it. */
  function FirstMatch<T>(items: seq<T>, matches: T -> bool): (r: Option<T>)
    ensures r.Some? ==> r.value in items && matches(r.value)
    ensures r.None? <==> forall x :: x in items ==> !matches(x)
    ensures r.Some? ==> exists i :: 0 <= i < |items| && items[i] == r.value
                                    && forall j :: 0 <= j < i ==> !matches(items[j])
  {
    if items == [] then None
    else if matches(items[0]) then Some(items[0])
    else FirstMatch(items[1..], matches)
  }

  /** `SourceType.parseval(symbol)`: the first member whose pattern fully matches. */
  function ParseSourceType(symbol: string): (r: Option<SourceType>)
    ensures r == Some(Header) <==> symbol == ".h" || symbol == ".hpp"
    ensures r == Some(Cpp) <==> symbol == ".c" || symbol == ".cc" || symbol == ".cpp" || symbol == ".c++"
    ensures r == None <==> forall st: SourceType :: symbol !in SourceTypePattern(st)
  {
    FirstMatch(SourceTypes, st => symbol in SourceTypePattern(st))
  }

  /** `TypeClassifier.parseval(symbol)`: the first member whose pattern fully matches. */
  function ParseClassifier(symbol: string): (r: Option<TypeClassifier>)
    ensures r == Some(Enum) <==> symbol == "enum" || symbol == "enum class"
    ensures r == Some(Struct) <==> symbol == "struct"
    ensures r == Some(Class) <==> symbol == "class"
    ensures r == None <==> forall tc: TypeClassifier :: symbol !in ClassifierPattern(tc)
  {
    FirstMatch(TypeClassifiers, tc => symbol in ClassifierPattern(tc))
  }

  /** No string fully matches the patterns of two different members. */
  lemma PatternsDisjoint(s: string)
    ensures forall a: SourceType, b: SourceType :: s in SourceTypePattern(a) && s in SourceTypePattern(b) ==> a == b
    ensures forall a: TypeClassifier, b: TypeClassifier :: s in ClassifierPattern(a) && s in ClassifierPattern(b) ==> a == b
  {
  }

  // ---------------------------------------------------------------------
  // Nodes and edges
  // ---------------------------------------------------------------------

  /**
   * A declared type. `classifier` and `sourceType` hold Python's `None` when
   * a lookup failed; the extractor lets an unknown extension through.
   */
  datatype TypeNode = TypeNode(name: string, classifier: Option<TypeClassifier>,
                               sourceName: string, sourceType: Option<SourceType>)

  /** A source file: its name without extension, and the extension itself. */
  datatype SourceNode = SourceNode(sourceName: string, sourceType: string)

  /** The text the reference classifier reads: a class body and an inheritance clause. */
  datatype CodeNode = CodeNode(classBody: Option<string>, inheritanceDeclare: Option<string>)

  datatype EdgeNode = EdgeNode(caller: TypeNode, callee: TypeNode, refType: RefType)

  /** The Python values the model's `__eq__` methods and the decoder deal in. */
  datatype PyValue =
    | PNone
    | PStr(str: string)
    | PRef(ref: RefType)
    | PSourceType(sourceType: SourceType)
    | PClassifier(classifier: TypeClassifier)
    | PNode(node: TypeNode)
    | PSource(source: SourceNode)
    | PCode(code: CodeNode)
    | PEdge(edge: EdgeNode)
      // an `EdgeNode` whose caller or callee is not a `TypeNode`, such as
      // one the decoder builds from a record holding plain type names
    | PEdgeOf(caller: PyValue, callee: PyValue, refType: RefType)
    | PDict(fields: map<string, PyValue>)

  /**
   * `SourceNode(srcFile)`: the file name split by `os.path.splitext`. The two
   * parts put together give the file name back, and the extension is empty
   * or runs from the last dot of the file's base name.
   */
  function NewSourceNode(srcFile: string): (n: SourceNode)
    ensures n.sourceName + n.sourceType == srcFile
    ensures n.sourceType == [] || (n.sourceType[0] == '.' && '.' !in n.sourceType[1..] && '/' !in n.sourceType)
    ensures n.sourceType != [] ==> EndsWith(Basename(srcFile), n.sourceType)
  {
    SplitExtOfBasename(srcFile);
    var (root, ext) := SplitExt(srcFile);
    SourceNode(root, ext)
  }

  /** `TypeNode.__eq__`: another `TypeNode` with the same four fields. */
  predicate TypeNodeEq(self: TypeNode, other: PyValue)
    ensures TypeNodeEq(self, other) ==> other.PNode?
  {
    match other
    case PNode(o) =>
      && self.name == o.name
      && self.sourceType == o.sourceType
      && self.sourceName == o.sourceName
      && self.classifier == o.classifier
    case _ => false
  }

  /** `SourceNode.__eq__`: another `SourceNode` with the same two fields. */
  predicate SourceNodeEq(self: SourceNode, other: PyValue)
    ensures SourceNodeEq(self, other) ==> other.PSource?
  {
    match other
    case PSource(o) => self.sourceType == o.sourceType && self.sourceName == o.sourceName
    case _ => false
  }

  /** `TypeNode` equality is value equality: it never holds against any other kind of value. */
  lemma TypeNodeEqIsValueEquality(a: TypeNode, other: PyValue)
    ensures TypeNodeEq(a, other) <==> other == PNode(a)
  {
  }

  /** `SourceNode` equality is value equality of (stem, extension). */
  lemma SourceNodeEqIsValueEquality(a: SourceNode, other: PyValue)
    ensures SourceNodeEq(a, other) <==> other == PSource(a)
  {
  }

  /** Two file names give equal `SourceNode`s exactly when they are the same name. */
  lemma NewSourceNodeInjective(f: string, g: string)
    ensures SourceNodeEq(NewSourceNode(f), PSource(NewSourceNode(g))) <==> f == g
  {
  }

  /** The Python value an optional source type is: `None` or the member. */
  function SourceTypeValue(st: Option<SourceType>): PyValue
  {
    match st
    case None => PNone
    case Some(t) => PSourceType(t)
  }

  /**
   * `EdgeNode.__eq__` as written: it demands that the other value be a
   * `TypeNode`, then compares this edge's caller with that node's
   * `sourceName`, its callee with the node's `sourceType` and its reference
   * type with the node's `name`. A `TypeNode` never equals a string or a
   * source type, so the first comparison already fails.
   */
  predicate EdgeNodeEq(self: EdgeNode, other: PyValue)
    ensures EdgeNodeEq(self, other) ==> other.PNode?
  {
    match other
    case PNode(o) =>
      && TypeNodeEq(self.caller, PStr(o.sourceName))
      && TypeNodeEq(self.callee, SourceTypeValue(o.sourceType))
      && PRef(self.refType) == PStr(o.name)
    case _ => false
  }

  /** No edge compares equal to anything, not even to itself. */
  lemma EdgeNodeEqNeverHolds(e: EdgeNode, other: PyValue)
    ensures !EdgeNodeEq(e, other)
    ensures !EdgeNodeEq(e, PEdge(e))
  {
  }

  /**
   * The equality `EdgeNode.__eq__` evidently intends: another edge whose
   * caller, callee and reference type are equal.
   */
  predicate EdgeNodeEquals(self: EdgeNode, other: PyValue)
    ensures EdgeNodeEquals(self, other) ==> other.PEdge?
  {
    match other
    case PEdge(o) =>
      && TypeNodeEq(self.caller, PNode(o.caller))
      && TypeNodeEq(self.callee, PNode(o.callee))
      && self.refType == o.refType
    case _ => false
  }

  /**
   * The intended edge equality is value equality, hence reflexive; Dafny's
   * own equality on `EdgeNode`, which the rest of the model uses, is it.
   */
  lemma EdgeNodeEqualsIsValueEquality(a: EdgeNode, other: PyValue)
    ensures EdgeNodeEquals(a, other) <==> other == PEdge(a)
    ensures EdgeNodeEquals(a, PEdge(a))
  {
  }

  // ---------------------------------------------------------------------
  // Record encoding (CustomEncoder.default) and decoding (object_hook)
  // ---------------------------------------------------------------------

  /** A JSON value as the codec produces and consumes it: strings and objects. */
  datatype Json = JStr(str: string) | JObj(fields: map<string, Json>)

  function ClassifierName(tc: TypeClassifier): string
  {
    match tc
    case Enum => "ENUM"
    case Struct => "STRUCT"
    case Class => "CLASS"
  }

  function SourceTypeName(st: SourceType): string
  {
    match st
    case Header => "HEADER"
    case Cpp => "CPP"
  }

  function RefTypeName(r: RefType): string
  {
    match r
    case Inheritance => "INHERITANCE"
    case Composition => "COMPOSITION"
    case Method => "METHOD"
  }

  /** `TypeClassifier[v]`: lookup by member name; anything else raises. */
  function ClassifierByName(v: PyValue): (r: Option<TypeClassifier>)
    ensures r.Some? <==> v.PStr? && v.str in {"ENUM", "STRUCT", "CLASS"}
    ensures r.Some? ==> ClassifierName(r.value) == v.str
  {
    match v
    case PStr("ENUM") => Some(Enum)
    case PStr("STRUCT") => Some(Struct)
    case PStr("CLASS") => Some(Class)
    case _ => None
  }

  /** `SourceType[v]`: lookup by member name; anything else raises. */
  function SourceTypeByName(v: PyValue): (r: Option<SourceType>)
    ensures r.Some? <==> v.PStr? && v.str in {"HEADER", "CPP"}
    ensures r.Some? ==> SourceTypeName(r.value) == v.str
  {
    match v
    case PStr("HEADER") => Some(Header)
    case PStr("CPP") => Some(Cpp)
    case _ => None
  }

  /** `RefType[v]`: lookup by member name; anything else raises. */
  function RefTypeByName(v: PyValue): (r: Option<RefType>)
    ensures r.Some? <==> v.PStr? && v.str in {"INHERITANCE", "COMPOSITION", "METHOD"}
    ensures r.Some? ==> RefTypeName(r.value) == v.str
  {
    match v
    case PStr("INHERITANCE") => Some(Inheritance)
    case PStr("COMPOSITION") => Some(Composition)
    case PStr("METHOD") => Some(Method)
    case _ => None
  }

  /** Looking a member up by the name the encoder writes finds that member. */
  lemma MemberNamesRoundTrip(tc: TypeClassifier, st: SourceType, r: RefType)
    ensures ClassifierByName(PStr(ClassifierName(tc))) == Some(tc)
    ensures SourceTypeByName(PStr(SourceTypeName(st))) == Some(st)
    ensures RefTypeByName(PStr(RefTypeName(r))) == Some(r)
  {
    match tc
    case Enum => assert ClassifierName(tc) == "ENUM";
    case Struct => assert ClassifierName(tc) == "STRUCT";
    case Class => assert ClassifierName(tc) == "CLASS";
    match st
    case Header => assert SourceTypeName(st) == "HEADER";
    case Cpp => assert SourceTypeName(st) == "CPP";
    match r
    case Inheritance => assert RefTypeName(r) == "INHERITANCE";
    case Composition => assert RefTypeName(r) == "COMPOSITION";
    case Method => assert RefTypeName(r) == "METHOD";
  }

  /** The record `CustomEncoder.default` builds for a node, before any check. */
  function NodeRecord(name: string, classifier: string, sourceName: string, sourceType: string): Json
  {
    JObj(map["name" := JStr(name), "classifier" := JStr(classifier),
             "sourceName" := JStr(sourceName), "sourceType" := JStr(sourceType)])
  }

  /**
   * `CustomEncoder.default` on a `TypeNode`. Reading `.name` of a missing
   * classifier or source type raises, so only complete nodes encode.
   */
  function EncodeNode(t: TypeNode): (r: Option<Json>)
    ensures r.Some? <==> t.classifier.Some? && t.sourceType.Some?
    ensures r.Some? ==> r.value.JObj?
                        && r.value.fields.Keys == {"name", "classifier", "sourceName", "sourceType"}
                        && r.value.fields["name"] == JStr(t.name)
                        && r.value.fields["sourceName"] == JStr(t.sourceName)
  {
    if t.classifier.None? || t.sourceType.None? then None
    else Some(NodeRecord(t.name, ClassifierName(t.classifier.value), t.sourceName,
                         SourceTypeName(t.sourceType.value)))
  }

  /**
   * `CustomEncoder.default` on an `EdgeNode`: the full records of caller and
   * callee, nested, and the reference type's member name.
   */
  function EncodeEdge(e: EdgeNode): (r: Option<Json>)
    ensures r.Some? <==> EncodeNode(e.caller).Some? && EncodeNode(e.callee).Some?
    ensures r.Some? ==> r.value.JObj?
                        && r.value.fields.Keys == {"caller", "callee", "refType"}
                        && r.value.fields["caller"] == EncodeNode(e.caller).value
                        && r.value.fields["callee"] == EncodeNode(e.callee).value
                        && r.value.fields["refType"] == JStr(RefTypeName(e.refType))
  {
    match (EncodeNode(e.caller), EncodeNode(e.callee))
    case (Some(caller), Some(callee)) =>
      Some(JObj(map["caller" := caller, "callee" := callee, "refType" := JStr(RefTypeName(e.refType))]))
    case _ => None
  }

  /**
   * `json.loads(json.dumps(v, cls=CustomEncoder))` on an edge's endpoint: a
   * node gives its record, a string stays a string.
   */
  function EncodeEndpoint(v: PyValue): (r: Option<Json>)
    ensures v.PStr? ==> r == Some(JStr(v.str))
    ensures r.Some? ==> v.PStr? || v.PNode?
  {
    match v
    case PNode(t) => EncodeNode(t)
    case PStr(s) => Some(JStr(s))
    case _ => None
  }

  /**
   * `CustomEncoder.default(obj)`: nodes and edges encode to objects, also an
   * edge whose endpoints are plain strings; anything else raises.
   */
  function Encode(obj: PyValue): (r: Option<Json>)
    ensures r.Some? ==> r.value.JObj?
    ensures r.Some? ==> obj.PNode? || obj.PEdge? || obj.PEdgeOf?
    ensures obj.PEdgeOf? ==>
              (r.Some? <==> EncodeEndpoint(obj.caller).Some? && EncodeEndpoint(obj.callee).Some?)
  {
    match obj
    case PNode(t) => EncodeNode(t)
    case PEdge(e) => EncodeEdge(e)
    case PEdgeOf(caller, callee, refType) =>
      (match (EncodeEndpoint(caller), EncodeEndpoint(callee))
       case (Some(c), Some(d)) => Some(JObj(map["caller" := c, "callee" := d, "refType" := JStr(RefTypeName(refType))]))
       case _ => None)
    case _ => None
  }

  /**
   * `TypeDependencyDecoder.object_hook(dct)`. A dict holding the four node
   * keys becomes a `TypeNode`, one holding the three edge keys an
   * `EdgeNode`, any other dict is returned as it is. `None` stands for the
   * exception a failed member-name lookup raises.
   */
  function ObjectHook(dct: map<string, PyValue>): (r: Option<PyValue>)
    ensures r.Some? && r.value.PDict? ==> r.value.fields == dct
    ensures NodeRecordKeys(dct) ==>
              (r.Some? <==> && dct["name"].PStr? && dct["sourceName"].PStr?
                            && ClassifierByName(dct["classifier"]).Some?
                            && SourceTypeByName(dct["sourceType"]).Some?)
    ensures !NodeRecordKeys(dct) && EdgeRecordKeys(dct) ==>
              (r.Some? <==> RefTypeByName(dct["refType"]).Some?)
    ensures !NodeRecordKeys(dct) && EdgeRecordKeys(dct) && r.Some? ==>
              EdgeParts(r.value) == Some((dct["caller"], dct["callee"], RefTypeByName(dct["refType"]).value))
    ensures !NodeRecordKeys(dct) && !EdgeRecordKeys(dct) ==> r == Some(PDict(dct))
  {
    if NodeRecordKeys(dct) then
      match (dct["name"], ClassifierByName(dct["classifier"]), dct["sourceName"], SourceTypeByName(dct["sourceType"]))
      case (PStr(name), Some(tc), PStr(sourceName), Some(st)) =>
        Some(PNode(TypeNode(name, Some(tc), sourceName, Some(st))))
      case _ => None
    else if EdgeRecordKeys(dct) then
      match RefTypeByName(dct["refType"])
      case Some(rt) => Some(NewEdge(dct["caller"], dct["callee"], rt))
      case None => None
    else
      Some(PDict(dct))
  }

  /** The dict holds the four keys of a node record. */
  predicate NodeRecordKeys(dct: map<string, PyValue>)
  {
    "name" in dct && "classifier" in dct && "sourceName" in dct && "sourceType" in dct
  }

  /** The dict holds the three keys of an edge record. */
  predicate EdgeRecordKeys(dct: map<string, PyValue>)
  {
    "caller" in dct && "callee" in dct && "refType" in dct
  }

  /**
   * `EdgeNode(caller, callee, refType)` on decoded values: the constructor
   * stores whatever it is given, so reading the attributes back gives the
   * arguments, nodes or not.
   */
  function NewEdge(caller: PyValue, callee: PyValue, refType: RefType): (v: PyValue)
    ensures EdgeParts(v) == Some((caller, callee, refType))
  {
    match (caller, callee)
    case (PNode(a), PNode(b)) => PEdge(EdgeNode(a, b, refType))
    case _ => PEdgeOf(caller, callee, refType)
  }

  /** The attributes `caller`, `callee` and `refType` of an `EdgeNode`; None for any other value. */
  function EdgeParts(v: PyValue): Option<(PyValue, PyValue, RefType)>
  {
    match v
    case PEdge(e) => Some((PNode(e.caller), PNode(e.callee), e.refType))
    case PEdgeOf(caller, callee, refType) => Some((caller, callee, refType))
    case _ => None
  }

  /**
   * `json.loads(..., cls=TypeDependencyDecoder)` on a parsed value: strings
   * stay strings; an object first has its values decoded, then goes
   * through `ObjectHook`. Any failure inside fails the whole.
   */
  function Load(j: Json): (r: Option<PyValue>)
    ensures j.JStr? ==> r == Some(PStr(j.str))
    ensures j.JObj? && r.Some? ==> forall k :: k in j.fields ==> Load(j.fields[k]).Some?
    decreases j
  {
    match j
    case JStr(s) => Some(PStr(s))
    case JObj(m) =>
      var loaded := map k | k in m :: Load(m[k]);
      if AllLoaded(loaded) then
        assert forall k :: k in m ==> loaded[k] == Load(m[k]);
        ObjectHook(LoadedValues(loaded))
      else None
  }

  predicate AllLoaded(loaded: map<string, Option<PyValue>>)
  {
    forall k :: k in loaded ==> loaded[k].Some?
  }

  function LoadedValues(loaded: map<string, Option<PyValue>>): map<string, PyValue>
    requires AllLoaded(loaded)
  {
    map k | k in loaded :: loaded[k].value
  }

  /** Decoding an object whose every value decodes hands the decoded values to the hook. */
  lemma LoadObject(m: map<string, Json>, dct: map<string, PyValue>)
    requires m.Keys == dct.Keys
    requires forall k :: k in m ==> Load(m[k]) == Some(dct[k])
    ensures Load(JObj(m)) == ObjectHook(dct)
  {
    var loaded := map k | k in m :: Load(m[k]);
    assert loaded == map k | k in dct :: Some(dct[k]);
    assert LoadedValues(loaded) == dct;
  }

  /**
   * Decoding a node record: it yields the node exactly when both enumeration
   * names are members, and fails otherwise.
   */
  lemma LoadNodeRecord(name: string, classifier: string, sourceName: string, sourceType: string)
    ensures var r := Load(NodeRecord(name, classifier, sourceName, sourceType));
            var tc := ClassifierByName(PStr(classifier));
            var st := SourceTypeByName(PStr(sourceType));
            && (r.Some? <==> tc.Some? && st.Some?)
            && (r.Some? ==> r.value == PNode(TypeNode(name, tc, sourceName, st)))
  {
    var m := NodeRecord(name, classifier, sourceName, sourceType).fields;
    var dct := map["name" := PStr(name), "classifier" := PStr(classifier),
                   "sourceName" := PStr(sourceName), "sourceType" := PStr(sourceType)];
    LoadObject(m, dct);
  }

  /** Decoding the record of a node gives back that node. */
  lemma {:induction false} NodeRoundTrip(t: TypeNode)
    requires EncodeNode(t).Some?
    ensures Load(EncodeNode(t).value) == Some(PNode(t))
  {
    LoadNodeRecord(t.name, ClassifierName(t.classifier.value), t.sourceName, SourceTypeName(t.sourceType.value));
  }

  /**
   * Decoding an edge record whose caller and callee records decode to
   * nodes hands those nodes and the reference type name to the hook.
   */
  lemma LoadEdgeRecord(callerRecord: Json, calleeRecord: Json, caller: TypeNode, callee: TypeNode, refType: string)
    requires Load(callerRecord) == Some(PNode(caller)) && Load(calleeRecord) == Some(PNode(callee))
    ensures Load(JObj(map["caller" := callerRecord, "callee" := calleeRecord, "refType" := JStr(refType)]))
            == ObjectHook(map["caller" := PNode(caller), "callee" := PNode(callee), "refType" := PStr(refType)])
  {
    var m := map["caller" := callerRecord, "callee" := calleeRecord, "refType" := JStr(refType)];
    var dct := map["caller" := PNode(caller), "callee" := PNode(callee), "refType" := PStr(refType)];
    assert m.Keys == dct.Keys;
    forall k | k in m ensures Load(m[k]) == Some(dct[k]) {
      if k == "caller" {
        assert m[k] == callerRecord;
      } else if k == "callee" {
        assert m[k] == calleeRecord;
      } else {
        assert m[k] == JStr(refType);
      }
    }
    LoadObject(m, dct);
  }

  /**
   * The hook on a dict of two nodes and a reference type name builds the
   * edge when the name is a member, and fails otherwise.
   */
  lemma EdgeHook(caller: TypeNode, callee: TypeNode, refType: string)
    ensures ObjectHook(map["caller" := PNode(caller), "callee" := PNode(callee), "refType" := PStr(refType)])
            == if RefTypeByName(PStr(refType)).Some?
               then Some(PEdge(EdgeNode(caller, callee, RefTypeByName(PStr(refType)).value)))
               else None
  {
    var dct := map["caller" := PNode(caller), "callee" := PNode(callee), "refType" := PStr(refType)];
    assert "name" !in dct by {
      assert dct.Keys == {"caller", "callee", "refType"};
    }
  }

  /**
   * Decoding the record of an edge rebuilds an edge whose caller, callee and
   * reference type are the original ones.
   */
  lemma EdgeRoundTrip(e: EdgeNode)
    requires EncodeEdge(e).Some?
    ensures Load(EncodeEdge(e).value) == Some(PEdge(e))
  {
    var caller, callee := EncodeNode(e.caller).value, EncodeNode(e.callee).value;
    assert EncodeEdge(e).value == JObj(map["caller" := caller, "callee" := callee, "refType" := JStr(RefTypeName(e.refType))]);
    NodeRoundTrip(e.caller);
    NodeRoundTrip(e.callee);
    LoadEdgeRecord(caller, callee, e.caller, e.callee, RefTypeName(e.refType));
    assert RefTypeByName(PStr(RefTypeName(e.refType))) == Some(e.refType) by {
      MemberNamesRoundTrip(Enum, Header, e.refType);
    }
    EdgeHook(e.caller, e.callee, RefTypeName(e.refType));
  }

  /** Encoding what a decoded record gives back reproduces the record. */
  lemma EncodeLoadEncode(obj: PyValue)
    requires Encode(obj).Some?
    ensures Load(Encode(obj).value).Some?
    ensures Encode(Load(Encode(obj).value).value) == Encode(obj)
  {
    match obj
    case PNode(t) => NodeRoundTrip(t);
    case PEdge(e) => EdgeRoundTrip(e);
    case PEdgeOf(caller, callee, refType) => LooseEdgeRoundTrip(caller, callee, refType);
  }

  /** An endpoint's encoding decodes to the endpoint. */
  lemma EndpointRoundTrip(v: PyValue)
    requires EncodeEndpoint(v).Some?
    ensures Load(EncodeEndpoint(v).value) == Some(v)
  {
    if v.PNode? {
      NodeRoundTrip(v.node);
    }
  }

  /**
   * An edge whose endpoints are strings or nodes decodes to an edge with
   * the same endpoints and reference type, which encodes as before.
   */
  lemma LooseEdgeRoundTrip(caller: PyValue, callee: PyValue, refType: RefType)
    requires Encode(PEdgeOf(caller, callee, refType)).Some?
    ensures Load(Encode(PEdgeOf(caller, callee, refType)).value) == Some(NewEdge(caller, callee, refType))
    ensures Encode(NewEdge(caller, callee, refType)) == Encode(PEdgeOf(caller, callee, refType))
  {
    var c, d := EncodeEndpoint(caller).value, EncodeEndpoint(callee).value;
    var m := map["caller" := c, "callee" := d, "refType" := JStr(RefTypeName(refType))];
    assert Encode(PEdgeOf(caller, callee, refType)).value == JObj(m);
    var dct := map["caller" := caller, "callee" := callee, "refType" := PStr(RefTypeName(refType))];
    assert m.Keys == dct.Keys;
    forall k | k in m ensures Load(m[k]) == Some(dct[k]) {
      if k == "caller" {
        EndpointRoundTrip(caller);
      } else if k == "callee" {
        EndpointRoundTrip(callee);
      } else {
        assert m[k] == JStr(RefTypeName(refType));
      }
    }
    LoadObject(m, dct);
    assert !NodeRecordKeys(dct) by {
      assert "name" !in dct.Keys;
    }
    assert RefTypeByName(PStr(RefTypeName(refType))) == Some(refType) by {
      MemberNamesRoundTrip(Enum, Header, refType);
    }
  }

  /** A reference type name that is no member makes an edge record fail to decode. */
  lemma LoadEdgeRecordUnknownRefType(caller: TypeNode, callee: TypeNode, refType: string)
    requires EncodeNode(caller).Some? && EncodeNode(callee).Some?
    requires refType !in {"INHERITANCE", "COMPOSITION", "METHOD"}
    ensures Load(JObj(map["caller" := EncodeNode(caller).value, "callee" := EncodeNode(callee).value,
                          "refType" := JStr(refType)])) == None
  {
    NodeRoundTrip(caller);
    NodeRoundTrip(callee);
    LoadEdgeRecord(EncodeNode(caller).value, EncodeNode(callee).value, caller, callee, refType);
    EdgeHook(caller, callee, refType);
  }

}
