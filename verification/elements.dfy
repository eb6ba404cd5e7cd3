/** Code elements and the per-file structures that hold them (CodeElement,
    CodeStructure). An element is one class, field, method or constructor
    as the parser reported it; its `matched`, `matchType` and `similarity`
    fields are filled in by the comparison. */
module Elements {
  import opened Wrappers

  datatype ElementType = Class | Field | Method | Constructor

  /** The four element types in declaration order. */
  const AllTypes: seq<ElementType> := [Class, Field, Method, Constructor]

  datatype MatchType = Exact | Similar | Missing | Extra

  /** An element. `similarity` is None until the comparison writes it. */
  datatype CodeElement = CodeElement(
    name: string,
    kind: ElementType,
    signature: string,
    sourceCode: string,
    lineNumber: int,
    matched: bool,
    matchType: MatchType,
    similarity: Option<real>)

  /** An element as the parser builds it: unmatched, MISSING, no similarity. */
  function NewElement(name: string, kind: ElementType, signature: string, sourceCode: string, lineNumber: int): (e: CodeElement)
    ensures !e.matched && e.matchType == Missing && e.similarity.None?
    ensures e.name == name && e.kind == kind && e.signature == signature
    ensures e.sourceCode == sourceCode && e.lineNumber == lineNumber
  {
    CodeElement(name, kind, signature, sourceCode, lineNumber, false, Missing, None)
  }

  /** `Enum.name()` of an element type. */
  function TypeName(kind: ElementType): (r: string)
    ensures |r| > 0
  {
    match kind
    case Class => "CLASS"
    case Field => "FIELD"
    case Method => "METHOD"
    case Constructor => "CONSTRUCTOR"
  }

  lemma TypeNameInjective(k1: ElementType, k2: ElementType)
    ensures TypeName(k1) == TypeName(k2) <==> k1 == k2
  {
  }

  datatype StructureType = Student | Reference

  datatype CodeStructure = CodeStructure(
    fileName: string,
    packageName: Option<string>,
    elements: seq<CodeElement>,
    structureType: StructureType)
  {
    function Classes(): seq<CodeElement> { OfKind(elements, Class) }
    function Fields(): seq<CodeElement> { OfKind(elements, Field) }
    function Methods(): seq<CodeElement> { OfKind(elements, Method) }
    function Constructors(): seq<CodeElement> { OfKind(elements, Constructor) }
  }

  // ---------------------------------------------------------------------------
  // Filters

  /** The elements satisfying `keep`, in their original order (a stream
      `filter`). */
  function Filter(es: seq<CodeElement>, keep: CodeElement -> bool): (r: seq<CodeElement>)
    ensures |r| <= |es|
    ensures forall i :: 0 <= i < |r| ==> keep(r[i])
  {
    if es == [] then []
    else (if keep(es[0]) then [es[0]] else []) + Filter(es[1..], keep)
  }

  /** Every kept element is kept as often as it occurs; every other element
      is dropped. */
  lemma {:induction false} FilterCounts(es: seq<CodeElement>, keep: CodeElement -> bool, e: CodeElement)
    ensures multiset(Filter(es, keep))[e] == if keep(e) then multiset(es)[e] else 0
  {
    if es != [] {
      assert es == [es[0]] + es[1..];
      FilterCounts(es[1..], keep, e);
    }
  }

  /** Filtering a concatenation filters each part. */
  lemma {:induction false} FilterAppend(a: seq<CodeElement>, b: seq<CodeElement>, keep: CodeElement -> bool)
    ensures Filter(a + b, keep) == Filter(a, keep) + Filter(b, keep)
    decreases |a|
  {
    if a != [] {
      assert (a + b)[0] == a[0];
      assert (a + b)[1..] == a[1..] + b;
      FilterAppend(a[1..], b, keep);
      var head := if keep(a[0]) then [a[0]] else [];
      assert Filter(a + b, keep) == head + Filter(a[1..] + b, keep);
      assert Filter(a, keep) == head + Filter(a[1..], keep);
    } else {
      assert a + b == b;
    }
  }

  /** The positions of the elements satisfying `keep`, from `from` on, ascending. */
  function IndicesFrom(es: seq<CodeElement>, keep: CodeElement -> bool, from: nat): (r: seq<nat>)
    requires from <= |es|
    ensures forall j :: 0 <= j < |r| ==> from <= r[j] < |es| && keep(es[r[j]])
    ensures forall j, j' :: 0 <= j < j' < |r| ==> r[j] < r[j']
    ensures forall i :: from <= i < |es| && keep(es[i]) ==> i in r
    decreases |es| - from
  {
    if from == |es| then []
    else (if keep(es[from]) then [from] else []) + IndicesFrom(es, keep, from + 1)
  }

  /** The positions of the elements satisfying `keep`, ascending. */
  function IndicesWhere(es: seq<CodeElement>, keep: CodeElement -> bool): (r: seq<nat>)
    ensures forall j :: 0 <= j < |r| ==> r[j] < |es| && keep(es[r[j]])
    ensures forall j, j' :: 0 <= j < j' < |r| ==> r[j] < r[j']
    ensures forall i :: 0 <= i < |es| && keep(es[i]) ==> i in r
  {
    IndicesFrom(es, keep, 0)
  }

  /** The elements at the given positions. */
  function Pick(es: seq<CodeElement>, idx: seq<nat>): (r: seq<CodeElement>)
    requires forall j :: 0 <= j < |idx| ==> idx[j] < |es|
    ensures |r| == |idx| && forall j :: 0 <= j < |idx| ==> r[j] == es[idx[j]]
  {
    seq(|idx|, j requires 0 <= j < |idx| => es[idx[j]])
  }

  lemma {:induction false} FilterFrom(es: seq<CodeElement>, keep: CodeElement -> bool, from: nat)
    requires from <= |es|
    ensures Filter(es[from..], keep) == Pick(es, IndicesFrom(es, keep, from))
    decreases |es| - from
  {
    if from < |es| {
      assert es[from..][0] == es[from];
      assert es[from..][1..] == es[from + 1..];
      FilterFrom(es, keep, from + 1);
    }
  }

  /** The filter agrees with picking the satisfying positions in ascending
      order: it returns exactly the satisfying elements, in order. */
  lemma FilterIsPick(es: seq<CodeElement>, keep: CodeElement -> bool)
    ensures Filter(es, keep) == Pick(es, IndicesWhere(es, keep))
  {
    FilterFrom(es, keep, 0);
    assert es[0..] == es;
  }

  // ---------------------------------------------------------------------------
  // Type filters

  function HasKind(k: ElementType): CodeElement -> bool {
    (e: CodeElement) => e.kind == k
  }

  function IsMatchType(t: MatchType): CodeElement -> bool {
    (e: CodeElement) => e.matchType == t
  }

  /** The elements of type `k`, in their original order. */
  function OfKind(es: seq<CodeElement>, k: ElementType): (r: seq<CodeElement>)
    ensures |r| <= |es|
    ensures forall i :: 0 <= i < |r| ==> r[i].kind == k
    ensures forall e :: multiset(r)[e] == if e.kind == k then multiset(es)[e] else 0
  {
    FilterCountsAll(es, HasKind(k));
    Filter(es, HasKind(k))
  }

  lemma FilterCountsAll(es: seq<CodeElement>, keep: CodeElement -> bool)
    ensures forall e :: multiset(Filter(es, keep))[e] == if keep(e) then multiset(es)[e] else 0
  {
    forall e
      ensures multiset(Filter(es, keep))[e] == if keep(e) then multiset(es)[e] else 0
    {
      FilterCounts(es, keep, e);
    }
  }

  /** The positions of the elements of type `k` (the element pool of one type). */
  function IndicesOfKind(es: seq<CodeElement>, k: ElementType): (r: seq<nat>)
    ensures forall j :: 0 <= j < |r| ==> r[j] < |es| && es[r[j]].kind == k
    ensures forall j, j' :: 0 <= j < j' < |r| ==> r[j] < r[j']
    ensures forall i :: 0 <= i < |es| && es[i].kind == k ==> i in r
  {
    IndicesWhere(es, HasKind(k))
  }

  /** The getters return exactly the elements of their type, in order. */
  lemma OfKindIsPick(es: seq<CodeElement>, k: ElementType)
    ensures OfKind(es, k) == Pick(es, IndicesOfKind(es, k))
    ensures forall e :: multiset(OfKind(es, k))[e] == if e.kind == k then multiset(es)[e] else 0
  {
    FilterIsPick(es, HasKind(k));
  }

  /** Filtering by type distributes over concatenation. */
  lemma OfKindAppend(a: seq<CodeElement>, b: seq<CodeElement>, k: ElementType)
    ensures OfKind(a + b, k) == OfKind(a, k) + OfKind(b, k)
  {
    FilterAppend(a, b, HasKind(k));
  }

  /** Since an element has exactly one of four types, the four getters
      together return as many elements as the structure holds. */
  lemma {:induction false} OfKindLengthsSum(es: seq<CodeElement>)
    ensures |OfKind(es, Class)| + |OfKind(es, Field)| + |OfKind(es, Method)| + |OfKind(es, Constructor)| == |es|
  {
    if es != [] {
      OfKindLengthsSum(es[1..]);
    }
  }

  lemma GettersPartition(s: CodeStructure)
    ensures |s.Classes()| + |s.Fields()| + |s.Methods()| + |s.Constructors()| == |s.elements|
    ensures multiset(s.Classes()) + multiset(s.Fields()) + multiset(s.Methods()) + multiset(s.Constructors())
      == multiset(s.elements)
  {
    OfKindLengthsSum(s.elements);
    var m := multiset(s.Classes()) + multiset(s.Fields()) + multiset(s.Methods()) + multiset(s.Constructors());
    OfKindIsPick(s.elements, Class);
    OfKindIsPick(s.elements, Field);
    OfKindIsPick(s.elements, Method);
    OfKindIsPick(s.elements, Constructor);
    forall e
      ensures m[e] == multiset(s.elements)[e]
    {
    }
  }

  // ---------------------------------------------------------------------------
  // Several structures

  /** All elements of a list of structures, file by file (`flatMap`). */
  function Flatten(structures: seq<CodeStructure>): (r: seq<CodeElement>)
  {
    if structures == [] then [] else structures[0].elements + Flatten(structures[1..])
  }

  /** The sum of the structures' element counts. */
  function TotalElements(structures: seq<CodeStructure>): (n: nat)
  {
    if structures == [] then 0 else |structures[0].elements| + TotalElements(structures[1..])
  }

  lemma {:induction false} TotalIsFlattenLength(structures: seq<CodeStructure>)
    ensures TotalElements(structures) == |Flatten(structures)|
  {
    if structures != [] {
      TotalIsFlattenLength(structures[1..]);
    }
  }

  /** Puts a flat list of elements back into the structures, file by file,
      each structure keeping its other fields and its element count. */
  function Refill(structures: seq<CodeStructure>, flat: seq<CodeElement>): (r: seq<CodeStructure>)
    requires |flat| == TotalElements(structures)
    ensures |r| == |structures|
    ensures forall i :: 0 <= i < |r| ==>
      r[i].fileName == structures[i].fileName && r[i].packageName == structures[i].packageName
      && r[i].structureType == structures[i].structureType
      && |r[i].elements| == |structures[i].elements|
    ensures Flatten(r) == flat
  {
    if structures == [] then []
    else
      var n := |structures[0].elements|;
      var s0 := structures[0].(elements := flat[..n]);
      var rest := Refill(structures[1..], flat[n..]);
      assert flat == flat[..n] + flat[n..];
      [s0] + rest
  }
}
