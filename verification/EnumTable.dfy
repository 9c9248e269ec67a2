/**
 The tables behind `nameof_enum` (cpp_practices/design_pattern_in_modern_cpp/src/nameof.hpp): the
 values of an enumeration, a compressed index for sparse ones, and the lookup of a value's name.

 `names` gives the name the compiler prints for a value; a value without one, or with an empty one, is
 not an enumerator.
 */
module EnumTable {

  type Names = map<int, string>

  predicate Named(names: Names, v: int) {
    v in names && names[v] != ""
  }

  // ---------- the range that is searched ----------

  datatype IntType = Int8 | Uint8 | Int16 | Uint16 | Int32 | Uint32 | Int64 | Uint64 {

    predicate Signed() {
      Int8? || Int16? || Int32? || Int64?
    }

    /** 2 to the number of bits. */
    function Modulus(): int {
      if Int8? || Uint8? then 0x100
      else if Int16? || Uint16? then 0x1_0000
      else if Int32? || Uint32? then 0x1_0000_0000
      else 0x1_0000_0000_0000_0000
    }

    function Min(): int {
      if Signed() then -(Modulus() / 2) else 0
    }

    function Max(): int {
      if Signed() then Modulus() / 2 - 1 else Modulus() - 1
    }

    predicate Has(x: int) {
      Min() <= x <= Max()
    }

    /** `static_cast` to the unsigned type of the same width. */
    function ToUnsigned(x: int): int {
      x % Modulus()
    }
  }

  /** The ranges of the eight types. */
  lemma TypeRanges()
    ensures Int8.Min() == -128 && Int8.Max() == 127 && Uint8.Min() == 0 && Uint8.Max() == 255
    ensures Int16.Min() == -32768 && Int16.Max() == 32767 && Uint16.Min() == 0 && Uint16.Max() == 65535
    ensures Int32.Min() == -2147483648 && Int32.Max() == 2147483647 && Uint32.Min() == 0 && Uint32.Max() == 4294967295
    ensures Int64.Min() == -9223372036854775808 && Int64.Max() == 9223372036854775807
    ensures Uint64.Min() == 0 && Uint64.Max() == 18446744073709551615
  {
  }

  function MixedSignLess(l: IntType, lhs: int, r: IntType, rhs: int): bool {
    if l.Signed() && !r.Signed() then lhs < 0 || l.ToUnsigned(lhs) < rhs
    else if !l.Signed() && r.Signed() then rhs >= 0 && lhs < r.ToUnsigned(rhs)
    else lhs < rhs
  }

  /** The cast keeps numbers that are not negative, and an unsigned type has no others. */
  lemma CastKeeps(t: IntType, x: int)
    requires t.Has(x)
    ensures x >= 0 ==> t.ToUnsigned(x) == x
    ensures !t.Signed() ==> x >= 0
  {
    match t
    case Int8 => case Uint8 => case Int16 => case Uint16 =>
    case Int32 => case Uint32 => case Int64 => case Uint64 =>
  }

  /** Whatever the signs and widths, the comparison is that of the numbers. */
  lemma MixedSignLessIsLess(l: IntType, lhs: int, r: IntType, rhs: int)
    requires l.Has(lhs) && r.Has(rhs)
    ensures MixedSignLess(l, lhs, r, rhs) <==> lhs < rhs
  {
    hide IntType.Has, IntType.ToUnsigned, IntType.Signed;
    CastKeeps(l, lhs);
    CastKeeps(r, rhs);
  }

  /** The configured range is an `int`, strictly inside the range of an `int16_t`. */
  function ReflectedMin(u: IntType, min: int): int {
    if MixedSignLess(Int32, min, u, u.Min()) then u.Min() else min
  }

  function ReflectedMax(u: IntType, max: int): int {
    if MixedSignLess(Int32, max, u, u.Max()) then max else u.Max()
  }

  /** The searched range is what the configured range and the underlying type have in common, and fits an `int`. */
  lemma ReflectedRange(u: IntType, min: int, max: int)
    requires Int16.Has(min) && min != Int16.Min() && Int16.Has(max) && max != Int16.Max()
    ensures Int16.Has(ReflectedMin(u, min)) && Int16.Has(ReflectedMax(u, max))
    ensures forall v :: ReflectedMin(u, min) <= v <= ReflectedMax(u, max) <==> min <= v <= max && u.Has(v)
  {
    MixedSignLessIsLess(Int32, min, u, u.Min());
    MixedSignLessIsLess(Int32, max, u, u.Max());
  }

  // ---------- the values ----------

  /** The enumerators from `lo` up to but not including `hi`, in order. */
  function Values(names: Names, lo: int, hi: int): (vs: seq<int>)
    requires lo <= hi
    ensures |vs| <= hi - lo
    decreases hi - lo
  {
    if lo == hi then []
    else Values(names, lo, hi - 1) + (if Named(names, hi - 1) then [hi - 1] else [])
  }

  lemma {:induction false} ValuesSorted(names: Names, lo: int, hi: int)
    requires lo <= hi
    ensures var vs := Values(names, lo, hi);
            && (forall i, j :: 0 <= i < j < |vs| ==> vs[i] < vs[j])
            && (forall v :: v in vs <==> lo <= v < hi && v in names && names[v] != "")
    decreases hi - lo
  {
    if lo < hi {
      ValuesSorted(names, lo, hi - 1);
      var vs := Values(names, lo, hi - 1);
      assert forall i :: 0 <= i < |vs| ==> vs[i] in vs;
    }
  }

  /** An enumerator stands at the position given by the number of enumerators below it. */
  lemma {:induction false} ValueAtRank(names: Names, lo: int, v: int, hi: int)
    requires lo <= v < hi && Named(names, v)
    ensures var rank := |Values(names, lo, v)|;
            rank < |Values(names, lo, hi)| && Values(names, lo, hi)[rank] == v
    decreases hi - lo
  {
    if v < hi - 1 {
      ValueAtRank(names, lo, v, hi - 1);
    }
  }

  function CountTrue(valid: seq<bool>): nat {
    if valid == [] then 0 else CountTrue(valid[..|valid| - 1]) + (if valid[|valid| - 1] then 1 else 0)
  }

  /** Fills the array of values; the loop runs on the number of values found, not on the length of `valid`. */
  method FillValues(names: Names, min: int, size: nat) returns (values: array<int>)
    ensures fresh(values) && values[..] == Values(names, min, min + size)
  {
    var valid := seq(size, i requires 0 <= i < size => Named(names, i + min));
    var count := CountTrue(valid);
    CountIsLength(names, min, valid);
    values := new int[count];
    FillLoop(names, min, valid, values);
  }

  method FillLoop(ghost names: Names, min: int, valid: seq<bool>, values: array<int>)
    requires forall i :: 0 <= i < |valid| ==> valid[i] == Named(names, i + min)
    requires values.Length == |Values(names, min, min + |valid|)|
    modifies values
    ensures values[..] == Values(names, min, min + |valid|)
  {
    ghost var all := Values(names, min, min + |valid|);
    assert Values(names, min, min) == [];
    hide Values, Named;
    var i, v := 0, 0;
    while v < values.Length
      invariant 0 <= i <= |valid| && v == |Values(names, min, min + i)| <= values.Length
      invariant forall k :: 0 <= k < v ==> values[k] == all[k]
      decreases |valid| - i
    {
      assert i < |valid|;
      ValuesStep(names, min, min + i);
      LengthGrows(names, min, min + i + 1, min + |valid|);
      if valid[i] {
        ValueAtRank(names, min, min + i, min + |valid|);
        values[v] := i + min;
        v := v + 1;
      }
      i := i + 1;
    }
  }

  lemma ValuesStep(names: Names, lo: int, v: int)
    requires lo <= v
    ensures Values(names, lo, v + 1) == Values(names, lo, v) + if Named(names, v) then [v] else []
  {
  }

  lemma {:induction false} CountIsLength(names: Names, min: int, valid: seq<bool>)
    requires forall i :: 0 <= i < |valid| ==> valid[i] == Named(names, i + min)
    ensures CountTrue(valid) == |Values(names, min, min + |valid|)|
  {
    if valid != [] {
      CountIsLength(names, min, valid[..|valid| - 1]);
    }
  }

  lemma {:induction false} LengthGrows(names: Names, lo: int, mid: int, hi: int)
    requires lo <= mid <= hi
    ensures |Values(names, lo, mid)| <= |Values(names, lo, hi)|
    decreases hi - mid
  {
    if mid < hi {
      LengthGrows(names, lo, mid, hi - 1);
    }
  }

  // ---------- the tables ----------

  /** `index_t`: a byte for a short range, two bytes otherwise; its largest value marks a hole. */
  function IndexModulus(range: int): int {
    if range < 0xff then 0x100 else 0x1_0000
  }

  function InvalidIndex(range: int): int {
    IndexModulus(range) - 1
  }

  /** The index of every value from `from` up to `hi`; `i` is the running counter, an `index_t`. */
  function Indexes(names: Names, from: int, hi: int, i: int, range: int): (ix: seq<int>)
    requires from <= hi
    ensures |ix| == hi - from
    decreases hi - from
  {
    if from == hi then []
    else if Named(names, from) then [i] + Indexes(names, from + 1, hi, (i + 1) % IndexModulus(range), range)
    else [InvalidIndex(range)] + Indexes(names, from + 1, hi, i, range)
  }

  /** What `strings_` holds: a C string, or the null pointer of an empty view. */
  datatype View = Text(s: string) | NullPointer

  function NameOf(names: Names, v: int): View {
    if Named(names, v) then Text(names[v]) else NullPointer
  }

  /** The tables of an enumeration with at least one enumerator in the searched range; `pointer` is the size of a pointer. */
  datatype Tables = Tables(min: int, max: int, sparse: bool, indexes: seq<int>, strings: seq<View>)

  function BuildTables(names: Names, values: seq<int>, pointer: nat): Tables
    requires values != [] && values[0] <= values[|values| - 1]
  {
    var min, max := values[0], values[|values| - 1];
    var range := max - min + 1;
    var sparse := pointer * range > (if IndexModulus(range) == 0x100 then 1 else 2) * range + pointer * |values|;
    var strings :=
      if sparse then seq(|values|, k requires 0 <= k < |values| => NameOf(names, values[k]))
      else seq(range, k => NameOf(names, k + min));
    Tables(min, max, sparse, Indexes(names, min, max + 1, 0, range), strings)
  }

  /** The size of one index, and the bytes of the two kinds of table. */
  function IndexBytes(range: int): nat {
    if range <= 254 then 1 else 2
  }

  function DenseBytes(range: int, pointer: nat): int {
    pointer * range
  }

  function SparseBytes(range: int, count: nat, pointer: nat): int {
    IndexBytes(range) * range + pointer * count
  }

  /** The table built is the smaller one, and the dense one if they are equal. */
  lemma SmallerTableIsBuilt(names: Names, values: seq<int>, pointer: nat)
    requires values != [] && values[0] <= values[|values| - 1]
    ensures var t := BuildTables(names, values, pointer);
            var dense, sparse := DenseBytes(|t.indexes|, pointer), SparseBytes(|t.indexes|, |values|, pointer);
            && |t.strings| == (if t.sparse then |values| else |t.indexes|)
            && (t.sparse ==> IndexBytes(|t.indexes|) * |t.indexes| + pointer * |t.strings| < dense)
            && (!t.sparse ==> pointer * |t.strings| <= sparse)
            && (t.sparse <==> sparse < dense)
  {
    hide Indexes;
  }

  predicate Indexable(t: Tables) {
    && |t.indexes| == t.max - t.min + 1
    && (t.sparse ==>
          forall k :: 0 <= k < |t.indexes| && t.indexes[k] != InvalidIndex(|t.indexes|) ==> 0 <= t.indexes[k] < |t.strings|)
    && (!t.sparse ==> |t.strings| == |t.indexes|)
  }

  /** `enum_traits::name`. */
  function Lookup(t: Tables, value: int): View
    requires Indexable(t)
  {
    if t.min <= value <= t.max then
      if t.sparse then
        var i := t.indexes[value - t.min];
        if i != InvalidIndex(|t.indexes|) then t.strings[i] else Text("")
      else t.strings[value - t.min]
    else Text("")
  }

  lemma CounterFits(i: nat, range: int)
    requires i < range < 0xffff
    ensures (i + 1) % IndexModulus(range) == i + 1 && i != InvalidIndex(range)
  {
  }

  /** The running counter counts the enumerators below; within the range it neither wraps nor meets the marker. */
  lemma {:induction false} IndexIsRank(names: Names, min: int, from: int, hi: int, range: int, v: int)
    requires min <= from <= v < hi && hi - min <= range < 0xffff
    ensures var ix := Indexes(names, from, hi, |Values(names, min, from)|, range);
            && (Named(names, v) ==> ix[v - from] == |Values(names, min, v)| != InvalidIndex(range))
            && (!Named(names, v) ==> ix[v - from] == InvalidIndex(range))
    decreases hi - from
  {
    hide IndexModulus, InvalidIndex;
    CounterFits(|Values(names, min, from)|, range);
    if from + 1 < hi {
      IndexIsRank(names, min, from + 1, hi, range, if v == from then from + 1 else v);
    }
  }

  /**
   The lookup agrees with the compiler, for every value of the underlying type. An enumerator in the searched
   range gets its own name, from either table. Any other value gets the empty name, except that the
   dense table answers a hole between the first and the last enumerator with a null pointer.
   */
  lemma LookupIsName(names: Names, lo: int, hi: int, pointer: nat, value: int)
    requires lo <= hi && hi - lo + 1 < 0xffff && Values(names, lo, hi + 1) != []
    ensures var vs := Values(names, lo, hi + 1);
            && vs[0] <= vs[|vs| - 1]
            && var t := BuildTables(names, vs, pointer);
               && Indexable(t)
               && (lo <= value <= hi && value in names && names[value] != "" ==> Lookup(t, value) == Text(names[value]))
               && (!(lo <= value <= hi && value in names && names[value] != "") ==>
                     (Lookup(t, value) == Text("") <==> t.sparse || !(t.min <= value <= t.max))
                     && (Lookup(t, value) != Text("") ==> Lookup(t, value) == NullPointer))
  {
    var vs := Values(names, lo, hi + 1);
    ValuesSorted(names, lo, hi + 1);
    assert vs[0] in vs && vs[|vs| - 1] in vs;
    SameValues(names, lo, vs[0], vs[|vs| - 1], hi);
    hide Values, Indexes;
    var t := BuildTables(names, vs, pointer);
    TablesDescribe(names, vs, pointer);
    hide BuildTables, Describes;
    TablesIndexable(t, names, vs);
    if t.min <= value <= t.max {
      LookupEntry(t, names, vs, value);
    }
    if Named(names, value) && lo <= value <= hi {
      assert t.min <= value <= t.max by {
        assert value in vs;
      }
    }
  }

  /** 0 to 8 without 4: eight names. */
  const HOLED: Names := map v | 0 <= v < 9 && v != 4 :: "name"

  /** With 8-byte pointers the dense table is the smaller one here, and it answers the hole with a null pointer. */
  lemma DenseTableHasHole()
    ensures var vs := Values(HOLED, 0, 9);
            && vs == [0, 1, 2, 3, 5, 6, 7, 8]
            && var t := BuildTables(HOLED, vs, 8);
               !t.sparse && Indexable(t) && Lookup(t, 4) == NullPointer
  {
    assert Values(HOLED, 5, 9) == [5, 6, 7, 8];
    assert Values(HOLED, 0, 9) == [0, 1, 2, 3, 5, 6, 7, 8];
    hide Values, Indexes;
    LookupIsName(HOLED, 0, 8, 8, 4);
  }

  /**
   A value between the first and the last enumerator, without a name, gets the empty name exactly when the
   sparse table is the smaller one.
   */
  lemma HoleIsEmptyWhenSparse(names: Names, lo: int, hi: int, pointer: nat, value: int)
    requires lo <= hi && hi - lo + 1 < 0xffff && Values(names, lo, hi + 1) != []
    ensures var vs := Values(names, lo, hi + 1);
            && vs[0] <= vs[|vs| - 1]
            && var t := BuildTables(names, vs, pointer);
               && Indexable(t)
               && (vs[0] <= value <= vs[|vs| - 1] && (value !in names || names[value] == "") ==>
                     var range := vs[|vs| - 1] - vs[0] + 1;
                     Lookup(t, value) ==
                     if SparseBytes(range, |vs|, pointer) < DenseBytes(range, pointer) then Text("") else NullPointer)
  {
    LookupIsName(names, lo, hi, pointer, value);
    var vs := Values(names, lo, hi + 1);
    SmallerTableIsBuilt(names, vs, pointer);
    hide Lookup, Values, Indexes;
  }

  const FAR_APART: Names := map[0 := "first", 10 := "last"]

  /** Two enumerators ten apart get the sparse table, which answers what lies between with the empty name. */
  lemma SparseTableHasNoHole()
    ensures var vs := Values(FAR_APART, 0, 11);
            && vs == [0, 10]
            && var t := BuildTables(FAR_APART, vs, 8);
               t.sparse && Indexable(t) && Lookup(t, 5) == Text("") && Lookup(t, 10) == Text("last")
  {
    assert Values(FAR_APART, 0, 5) == [0];
    assert Values(FAR_APART, 0, 10) == [0];
    hide Values, Indexes;
    LookupIsName(FAR_APART, 0, 10, 8, 5);
    LookupIsName(FAR_APART, 0, 10, 8, 10);
  }

  ghost predicate WholeRange(names: Names, vs: seq<int>) {
    && vs != [] && vs[0] <= vs[|vs| - 1] && vs[|vs| - 1] - vs[0] + 1 < 0xffff
    && vs == Values(names, vs[0], vs[|vs| - 1] + 1)
  }

  /** The tables describe the enumerators `vs`. */
  ghost predicate Describes(t: Tables, names: Names, vs: seq<int>)
    requires vs != [] && vs[0] <= vs[|vs| - 1]
  {
    && t.min == vs[0] && t.max == vs[|vs| - 1]
    && t.indexes == Indexes(names, t.min, t.max + 1, 0, t.max - t.min + 1)
    && (t.sparse ==> |t.strings| == |vs| && forall i :: 0 <= i < |vs| ==> t.strings[i] == NameOf(names, vs[i]))
    && (!t.sparse ==> |t.strings| == |t.indexes|
                      && forall k :: 0 <= k < |t.indexes| ==> t.strings[k] == NameOf(names, t.min + k))
  }

  lemma TablesDescribe(names: Names, vs: seq<int>, pointer: nat)
    requires vs != [] && vs[0] <= vs[|vs| - 1]
    ensures Describes(BuildTables(names, vs, pointer), names, vs)
  {
  }

  lemma TablesIndexable(t: Tables, names: Names, vs: seq<int>)
    requires WholeRange(names, vs) && Describes(t, names, vs)
    ensures Indexable(t)
  {
    hide Values, Indexes;
    forall k | 0 <= k < |t.indexes| && t.indexes[k] != InvalidIndex(|t.indexes|)
      ensures 0 <= t.indexes[k] < |vs|
    {
      IndexOfValue(names, t.min, t.max, t.min + k);
    }
  }

  /** One entry of the tables. */
  lemma LookupEntry(t: Tables, names: Names, vs: seq<int>, v: int)
    requires WholeRange(names, vs) && Describes(t, names, vs) && Indexable(t) && t.min <= v <= t.max
    ensures Lookup(t, v) == if Named(names, v) then Text(names[v]) else if t.sparse then Text("") else NullPointer
  {
    hide Values, Indexes, Indexable, InvalidIndex;
    IndexOfValue(names, t.min, t.max, v);
    assert t.min + (v - t.min) == v;
  }

  lemma IndexOfValue(names: Names, min: int, max: int, v: int)
    requires min <= v <= max && max - min + 1 < 0xffff
    ensures var range, vs := max - min + 1, Values(names, min, max + 1);
            var i := Indexes(names, min, max + 1, 0, range)[v - min];
            if Named(names, v) then 0 <= i < |vs| && vs[i] == v && i != InvalidIndex(range) else i == InvalidIndex(range)
  {
    IndexIsRank(names, min, min, max + 1, max - min + 1, v);
    if Named(names, v) {
      ValueAtRank(names, min, v, max + 1);
    }
  }

  /** The range may be cut at the first and the last enumerator. */
  lemma SameValues(names: Names, lo: int, min: int, max: int, hi: int)
    requires lo <= min <= max <= hi
    requires var vs := Values(names, lo, hi + 1); vs != [] && vs[0] == min && vs[|vs| - 1] == max
    ensures Values(names, min, max + 1) == Values(names, lo, hi + 1)
  {
    var vs := Values(names, lo, hi + 1);
    ValuesSorted(names, lo, hi + 1);
    forall v | lo <= v <= hi && Named(names, v)
      ensures min <= v <= max
    {
      assert v in vs;
    }
    CutTop(names, lo, max + 1, hi + 1);
    CutBottom(names, lo, min, max + 1);
  }

  lemma {:induction false} CutTop(names: Names, lo: int, mid: int, hi: int)
    requires lo <= mid <= hi && forall v :: mid <= v < hi ==> !Named(names, v)
    ensures Values(names, lo, mid) == Values(names, lo, hi)
    decreases hi - mid
  {
    if mid < hi {
      CutTop(names, lo, mid, hi - 1);
    }
  }

  lemma {:induction false} CutBottom(names: Names, lo: int, mid: int, hi: int)
    requires lo <= mid <= hi && forall v :: lo <= v < mid ==> !Named(names, v)
    ensures Values(names, mid, hi) == Values(names, lo, hi)
    decreases hi - lo
  {
    if lo < hi {
      CutBottom(names, lo, if mid < hi then mid else hi - 1, hi - 1);
    }
  }
}
