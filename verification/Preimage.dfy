/** The bytes a column signature covers. */
module Preimage {
  import opened Common
  import opened TextOrder
  import opened Values

  const TWO_POW_32: nat := 0x1_0000_0000

  /** A length as four big-endian bytes, reduced modulo 2^32 by the cast. */
  function Be32(n: nat): seq<Byte> {
    var m := n % TWO_POW_32;
    [m / 0x100_0000, m / 0x1_0000 % 0x100, m / 0x100 % 0x100, m % 0x100]
  }

  function ReadBe32(b: seq<Byte>): nat
    requires |b| == 4
  {
    (b[0] as int) * 0x100_0000 + (b[1] as int) * 0x1_0000 + (b[2] as int) * 0x100 + b[3] as int
  }

  lemma Be32RoundTrip(n: nat)
    requires n < TWO_POW_32
    ensures ReadBe32(Be32(n)) == n
  {
    var a, b, c := n / 0x100_0000, n / 0x1_0000, n / 0x100;
    assert b == a * 0x100 + b % 0x100;
    assert c == b * 0x100 + c % 0x100;
    assert n == c * 0x100 + n % 0x100;
  }

  type Bytes = seq<Byte>

  function Prefixed(parts: seq<Bytes>): Bytes {
    if parts == [] then [] else Prefixed(parts[..|parts| - 1]) + Be32(|parts[|parts| - 1]|) + parts[|parts| - 1]
  }

  /** The buffer built part by part. */
  method LengthPrefixed(parts: seq<Bytes>) returns (buf: Bytes)
    ensures buf == Prefixed(parts)
    ensures (forall p | p in parts :: |p| < TWO_POW_32) ==> ParseParts(buf, |parts|) == Some(parts)
  {
    buf := [];
    for i := 0 to |parts|
      invariant buf == Prefixed(parts[..i])
    {
      assert parts[..i + 1][..i] == parts[..i];
      buf := buf + Be32(|parts[i]|);
      buf := buf + parts[i];
    }
    assert parts[..|parts|] == parts;
    if forall p | p in parts :: |p| < TWO_POW_32 {
      ParseInvertsPrefixed(parts);
    }
  }

  /** Read `n` length-prefixed parts off the front; nothing may be left over. */
  function ParseParts(buf: Bytes, n: nat): Option<seq<Bytes>> {
    if n == 0 then (if buf == [] then Some([]) else None)
    else if |buf| < 4 then None
    else
      var len := ReadBe32(buf[..4]);
      if |buf| < 4 + len then None
      else
        match ParseParts(buf[4 + len..], n - 1)
        case Some(rest) => Some([buf[4..4 + len]] + rest)
        case None => None
  }

  function PrefixedFront(parts: seq<Bytes>): Bytes {
    if parts == [] then [] else Be32(|parts[0]|) + parts[0] + PrefixedFront(parts[1..])
  }

  lemma {:induction false} PrefixedFrontIsPrefixed(parts: seq<Bytes>, last: Bytes)
    ensures PrefixedFront(parts + [last]) == PrefixedFront(parts) + (Be32(|last|) + last)
  {
    hide Be32;
    if parts == [] {
      assert (parts + [last])[1..] == [];
      assert PrefixedFront([last]) == Be32(|last|) + last + [];
    } else {
      assert (parts + [last])[1..] == parts[1..] + [last];
      PrefixedFrontIsPrefixed(parts[1..], last);
    }
  }

  lemma {:induction false} BothPrefixings(parts: seq<Bytes>)
    ensures PrefixedFront(parts) == Prefixed(parts)
  {
    hide Be32;
    if parts != [] {
      var front, last := parts[..|parts| - 1], parts[|parts| - 1];
      BothPrefixings(front);
      PrefixedFrontIsPrefixed(front, last);
      assert parts == front + [last];
    }
  }

  lemma {:induction false} ParseInvertsFront(parts: seq<Bytes>)
    requires forall p | p in parts :: |p| < TWO_POW_32
    ensures ParseParts(PrefixedFront(parts), |parts|) == Some(parts)
  {
    hide Be32, ReadBe32;
    if parts != [] {
      var buf, len := PrefixedFront(parts), |parts[0]|;
      assert parts[0] in parts;
      Be32Length(len);
      Be32RoundTrip(len);
      ParseInvertsFront(parts[1..]);
      assert buf[..4] == Be32(len);
      assert buf[4..4 + len] == parts[0];
      assert buf[4 + len..] == PrefixedFront(parts[1..]);
      assert parts == [parts[0]] + parts[1..];
    }
  }

  lemma Be32Length(n: nat)
    ensures |Be32(n)| == 4
  {
  }

  lemma ParseInvertsPrefixed(parts: seq<Bytes>)
    requires forall p | p in parts :: |p| < TWO_POW_32
    ensures ParseParts(Prefixed(parts), |parts|) == Some(parts)
  {
    BothPrefixings(parts);
    ParseInvertsFront(parts);
  }

  /** Equal preimages come from equal fields. */
  lemma PreimageIsUnambiguous(a: seq<Bytes>, b: seq<Bytes>)
    requires |a| == |b| == 5 && forall p | p in a || p in b :: |p| < TWO_POW_32
    ensures Prefixed(a) == Prefixed(b) <==> a == b
  {
    hide Be32, Prefixed, ParseParts;
    ParseInvertsPrefixed(a);
    ParseInvertsPrefixed(b);
  }

  predicate DistinctNames(fields: seq<Field>) {
    forall i, j | 0 <= i < j < |fields| :: fields[i].name != fields[j].name
  }

  /** JSON as a parser produces it: no object names a key twice. */
  predicate WellFormed(j: Json) {
    match j
    case JArray(items) => forall i | 0 <= i < |items| :: WellFormed(items[i])
    case JObject(fields) => DistinctNames(fields) && forall i | 0 <= i < |fields| :: WellFormed(fields[i].value)
    case _ => true
  }

  /** Equal but for the order of object keys, at any depth. */
  predicate SameButOrder(a: Json, b: Json) {
    if a.JArray? && b.JArray? then
      |a.items| == |b.items| && forall i | 0 <= i < |a.items| :: SameButOrder(a.items[i], b.items[i])
    else if a.JObject? && b.JObject? then
      && (forall i | 0 <= i < |a.fields| :: HasRight(a.fields[i], b.fields))
      && (forall j | 0 <= j < |b.fields| :: HasLeft(a.fields, b.fields[j]))
    else a == b
  }

  predicate SameField(f: Field, g: Field) {
    f.name == g.name && SameButOrder(f.value, g.value)
  }

  predicate HasRight(f: Field, t: seq<Field>) {
    exists j | 0 <= j < |t| :: SameField(f, t[j])
  }

  predicate HasLeft(s: seq<Field>, g: Field) {
    exists i | 0 <= i < |s| :: SameField(s[i], g)
  }

  /** Insert in front of the first field with a greater name. */
  function InsertField(f: Field, sorted: seq<Field>): seq<Field> {
    if sorted == [] || TextLeq(f.name, sorted[0].name) then [f] + sorted
    else [sorted[0]] + InsertField(f, sorted[1..])
  }

  function SortFields(fields: seq<Field>): seq<Field> {
    if fields == [] then [] else InsertField(fields[0], SortFields(fields[1..]))
  }

  /** Object keys sorted at every depth. */
  function Canonicalize(j: Json): Json
    decreases j
  {
    match j
    case JObject(fields) => JObject(SortFields(CanonicalFields(fields)))
    case JArray(items) => JArray(CanonicalItems(items))
    case _ => j
  }

  function CanonicalFields(fields: seq<Field>): (r: seq<Field>)
    ensures |r| == |fields|
    ensures forall i | 0 <= i < |r| :: r[i] == Field(fields[i].name, Canonicalize(fields[i].value))
    decreases fields
  {
    if fields == [] then []
    else [Field(fields[0].name, Canonicalize(fields[0].value))] + CanonicalFields(fields[1..])
  }

  function CanonicalItems(items: seq<Json>): (r: seq<Json>)
    ensures |r| == |items|
    ensures forall i | 0 <= i < |r| :: r[i] == Canonicalize(items[i])
    decreases items
  {
    if items == [] then [] else [Canonicalize(items[0])] + CanonicalItems(items[1..])
  }

  predicate StrictlySorted(fields: seq<Field>) {
    forall i, j | 0 <= i < j < |fields| :: TextLess(fields[i].name, fields[j].name)
  }

  lemma {:induction false} InsertKeeps(f: Field, sorted: seq<Field>)
    requires StrictlySorted(sorted) && forall g | g in sorted :: g.name != f.name
    ensures StrictlySorted(InsertField(f, sorted))
    ensures forall g :: g in InsertField(f, sorted) <==> g == f || g in sorted
  {
    hide TextLeq;
    if sorted != [] {
      if TextLeq(f.name, sorted[0].name) {
        forall i | 0 <= i < |sorted|
          ensures TextLess(f.name, sorted[i].name)
        {
          assert sorted[i] in sorted;
          if i > 0 {
            TextTransitive(f.name, sorted[0].name, sorted[i].name);
          }
        }
      } else {
        TextTotal(f.name, sorted[0].name);
        var rest := InsertField(f, sorted[1..]);
        InsertKeeps(f, sorted[1..]);
        forall i | 0 <= i < |rest|
          ensures TextLess(sorted[0].name, rest[i].name)
        {
          assert rest[i] in rest;
          if rest[i] == f {
            assert sorted[0] in sorted;
          } else {
            var k :| 0 <= k < |sorted[1..]| && sorted[1..][k] == rest[i];
            assert TextLess(sorted[0].name, sorted[k + 1].name);
          }
        }
      }
    }
  }

  lemma {:induction false} SortSorts(fields: seq<Field>)
    requires DistinctNames(fields)
    ensures StrictlySorted(SortFields(fields))
    ensures forall g :: g in SortFields(fields) <==> g in fields
  {
    hide TextLeq;
    if fields != [] {
      SortSorts(fields[1..]);
      InsertKeeps(fields[0], SortFields(fields[1..]));
    }
  }

  /** A strictly sorted sequence is determined by its members. */
  lemma {:induction false} SortedIsUnique(s: seq<Field>, t: seq<Field>)
    requires StrictlySorted(s) && StrictlySorted(t) && forall f :: f in s <==> f in t
    ensures s == t
  {
    hide TextLeq;
    if s == [] || t == [] {
      FirstIsMember(s);
      FirstIsMember(t);
    } else {
      assert s[0] in s && t[0] in t;
      var i :| 0 <= i < |t| && t[i] == s[0];
      var j :| 0 <= j < |s| && s[j] == t[0];
      if i > 0 && j > 0 {
        TextAntisymmetric(s[0].name, t[0].name);
      }
      assert s[0] == t[0];
      forall f
        ensures f in s[1..] <==> f in t[1..]
      {
        TailMember(s, f);
        TailMember(t, f);
      }
      SortedIsUnique(s[1..], t[1..]);
      assert s == [s[0]] + s[1..] && t == [t[0]] + t[1..];
    }
  }

  lemma TailMember(s: seq<Field>, f: Field)
    requires StrictlySorted(s) && s != []
    ensures f in s[1..] <==> f in s && f != s[0]
  {
    hide TextLeq;
    if f in s && f != s[0] {
      var i :| 0 <= i < |s| && s[i] == f;
      assert s[1..][i - 1] == f;
    }
  }

  /** Two objects canonicalize alike exactly when their canonical fields have the same members. */
  lemma ObjectsAlike(a: seq<Field>, b: seq<Field>)
    requires DistinctNames(a) && DistinctNames(b)
    ensures SortFields(CanonicalFields(a)) == SortFields(CanonicalFields(b)) <==>
            SameMembers(CanonicalFields(a), CanonicalFields(b))
  {
    hide TextLeq, Canonicalize, SortFields, CanonicalFields;
    var ca, cb := CanonicalFields(a), CanonicalFields(b);
    SortSorts(ca);
    SortSorts(cb);
    if SameMembers(ca, cb) {
      SortedIsUnique(SortFields(ca), SortFields(cb));
    }
    if SortFields(ca) == SortFields(cb) {
      assert forall i | 0 <= i < |ca| :: ca[i] in ca;
      assert forall i | 0 <= i < |cb| :: cb[i] in cb;
    }
  }

  function CanonicalField(f: Field): Field {
    Field(f.name, Canonicalize(f.value))
  }

  predicate Corresponds(a: seq<Field>, b: seq<Field>) {
    forall i, j | 0 <= i < |a| && 0 <= j < |b| :: CanonicalField(a[i]) == CanonicalField(b[j]) <==> SameField(a[i], b[j])
  }

  lemma CanonicalFieldAt(a: seq<Field>, i: nat)
    requires i < |a|
    ensures CanonicalFields(a)[i] == CanonicalField(a[i]) && CanonicalField(a[i]) in CanonicalFields(a)
  {
    assert CanonicalFields(a)[i] in CanonicalFields(a);
  }

  lemma RightIff(a: seq<Field>, b: seq<Field>, i: nat)
    requires i < |a| && Corresponds(a, b)
    ensures HasRight(a[i], b) <==> CanonicalField(a[i]) in CanonicalFields(b)
  {
    hide CanonicalField, SameField, CanonicalFields;
    if HasRight(a[i], b) {
      var j :| 0 <= j < |b| && SameField(a[i], b[j]);
      CanonicalFieldAt(b, j);
    }
    if CanonicalField(a[i]) in CanonicalFields(b) {
      var j :| 0 <= j < |CanonicalFields(b)| && CanonicalFields(b)[j] == CanonicalField(a[i]);
      CanonicalFieldAt(b, j);
    }
  }

  lemma LeftIff(a: seq<Field>, b: seq<Field>, j: nat)
    requires j < |b| && Corresponds(a, b)
    ensures HasLeft(a, b[j]) <==> CanonicalField(b[j]) in CanonicalFields(a)
  {
    hide CanonicalField, SameField, CanonicalFields;
    if HasLeft(a, b[j]) {
      var i :| 0 <= i < |a| && SameField(a[i], b[j]);
      CanonicalFieldAt(a, i);
    }
    if CanonicalField(b[j]) in CanonicalFields(a) {
      var i :| 0 <= i < |CanonicalFields(a)| && CanonicalFields(a)[i] == CanonicalField(b[j]);
      CanonicalFieldAt(a, i);
    }
  }

  predicate SameMembers(s: seq<Field>, t: seq<Field>) {
    (forall i | 0 <= i < |s| :: s[i] in t) && (forall j | 0 <= j < |t| :: t[j] in s)
  }

  /** Canonical fields have the same members exactly when every field has its counterpart. */
  lemma MembersIff(a: seq<Field>, b: seq<Field>)
    requires Corresponds(a, b)
    ensures SameMembers(CanonicalFields(a), CanonicalFields(b)) <==> SameButOrder(JObject(a), JObject(b))
  {
    hide CanonicalField, SameField, CanonicalFields, HasLeft, HasRight, Corresponds, Canonicalize;
    forall i | 0 <= i < |a|
      ensures HasRight(a[i], b) <==> CanonicalFields(a)[i] in CanonicalFields(b)
    {
      RightIff(a, b, i);
      CanonicalFieldAt(a, i);
    }
    forall j | 0 <= j < |b|
      ensures HasLeft(a, b[j]) <==> CanonicalFields(b)[j] in CanonicalFields(a)
    {
      LeftIff(a, b, j);
      CanonicalFieldAt(b, j);
    }
    var x, y := JObject(a), JObject(b);
    assert x.fields == a && y.fields == b;
  }

  /** Canonical forms agree exactly on values that differ only in the order of object keys. */
  lemma {:induction false} CanonicalizeIff(a: Json, b: Json)
    requires WellFormed(a) && WellFormed(b)
    ensures Canonicalize(a) == Canonicalize(b) <==> SameButOrder(a, b)
    decreases a
  {
    if a.JObject? && b.JObject? {
      ObjectsIff(a, b);
    } else if a.JArray? && b.JArray? {
      ArraysIff(a, b);
    }
  }

  lemma {:induction false} ObjectsIff(a: Json, b: Json)
    requires WellFormed(a) && WellFormed(b) && a.JObject? && b.JObject?
    ensures Canonicalize(a) == Canonicalize(b) <==> SameButOrder(a, b)
    decreases a, 0
  {
    hide SortFields, TextLeq, SameButOrder, CanonicalFields, SameMembers;
    forall i, j | 0 <= i < |a.fields| && 0 <= j < |b.fields|
      ensures CanonicalField(a.fields[i]) == CanonicalField(b.fields[j]) <==> SameField(a.fields[i], b.fields[j])
    {
      CanonicalizeIff(a.fields[i].value, b.fields[j].value);
    }
    MembersIff(a.fields, b.fields);
    ObjectsAlike(a.fields, b.fields);
  }

  lemma {:induction false} ArraysIff(a: Json, b: Json)
    requires WellFormed(a) && WellFormed(b) && a.JArray? && b.JArray?
    ensures Canonicalize(a) == Canonicalize(b) <==> SameButOrder(a, b)
    decreases a, 0
  {
    var ca, cb := CanonicalItems(a.items), CanonicalItems(b.items);
    if |a.items| == |b.items| {
      forall i | 0 <= i < |a.items|
        ensures ca[i] == cb[i] <==> SameButOrder(a.items[i], b.items[i])
      {
        CanonicalizeIff(a.items[i], b.items[i]);
      }
      assert ca == cb <==> forall i | 0 <= i < |ca| :: ca[i] == cb[i];
    } else {
      assert |ca| != |cb|;
    }
  }

  /** Canonicalization changes nothing but key order. */
  lemma {:induction false} CanonicalFormIsTheSameValue(j: Json)
    requires WellFormed(j)
    ensures WellFormed(Canonicalize(j)) && SameButOrder(j, Canonicalize(j))
  {
    hide SortFields, TextLeq;
    match j {
      case JArray(items) =>
        forall i | 0 <= i < |items|
          ensures WellFormed(Canonicalize(items[i])) && SameButOrder(items[i], Canonicalize(items[i]))
        {
          CanonicalFormIsTheSameValue(items[i]);
        }
      case JObject(fields) =>
        forall i | 0 <= i < |fields|
          ensures WellFormed(CanonicalField(fields[i]).value) && SameField(fields[i], CanonicalField(fields[i]))
        {
          CanonicalFormIsTheSameValue(fields[i].value);
        }
        SortedObject(fields);
      case _ =>
    }
  }

  lemma SortedObject(fields: seq<Field>)
    requires DistinctNames(fields)
    requires forall i | 0 <= i < |fields| ::
               WellFormed(CanonicalField(fields[i]).value) && SameField(fields[i], CanonicalField(fields[i]))
    ensures WellFormed(Canonicalize(JObject(fields))) && SameButOrder(JObject(fields), Canonicalize(JObject(fields)))
  {
    hide SortFields, CanonicalFields, TextLeq, SameField, CanonicalField;
    var c := CanonicalFields(fields);
    var r := Canonicalize(JObject(fields)).fields;
    SortSorts(c);
    StrictIsDistinct(r);
    forall k | 0 <= k < |r|
      ensures HasLeft(fields, r[k]) && WellFormed(r[k].value)
    {
      assert r[k] in r;
      var i :| 0 <= i < |c| && c[i] == r[k];
      CanonicalFieldAt(fields, i);
    }
    forall i | 0 <= i < |fields|
      ensures HasRight(fields[i], r)
    {
      CanonicalFieldAt(fields, i);
      var k :| 0 <= k < |r| && r[k] == c[i];
    }
    var x, y := JObject(fields), JObject(r);
    assert x.fields == fields && y.fields == r;
  }

  lemma FirstIsMember(s: seq<Field>)
    ensures s != [] ==> s[0] in s
  {
  }

  lemma StrictIsDistinct(s: seq<Field>)
    requires StrictlySorted(s)
    ensures DistinctNames(s)
  {
  }

  lemma CanonicalizeIsIdempotent(j: Json)
    requires WellFormed(j)
    ensures Canonicalize(Canonicalize(j)) == Canonicalize(j)
  {
    hide *;
    CanonicalFormIsTheSameValue(j);
    CanonicalizeIff(j, Canonicalize(j));
  }

  /** The five fields a signature covers; strings are their UTF-8 bytes. */
  datatype Signed = Signed(table: Bytes, rowPks: Bytes, column: Bytes, hlc: Bytes, value: Json)

  /** `render` is the JSON serializer. */
  function ColumnSigPreimage(c: Signed, render: Json -> Bytes): Bytes {
    Prefixed(PartsOf(c, render))
  }

  function PartsOf(c: Signed, render: Json -> Bytes): seq<Bytes> {
    [c.table, c.rowPks, c.column, c.hlc, render(Canonicalize(c.value))]
  }

  /** A verifier reads the five fields back from a preimage, the value in its canonical form. */
  lemma PreimageReadsBack(c: Signed, render: Json -> Bytes)
    requires |c.table| < TWO_POW_32 && |c.rowPks| < TWO_POW_32 && |c.column| < TWO_POW_32 && |c.hlc| < TWO_POW_32
    requires |render(Canonicalize(c.value))| < TWO_POW_32
    ensures ParseParts(ColumnSigPreimage(c, render), 5) == Some([c.table, c.rowPks, c.column, c.hlc, render(Canonicalize(c.value))])
  {
    hide ParseParts, Prefixed, Canonicalize;
    var parts := [c.table, c.rowPks, c.column, c.hlc, render(Canonicalize(c.value))];
    ParseInvertsPrefixed(parts);
    assert PartsOf(c, render) == parts;
  }

  /** Over an injective serializer, two changes share a preimage exactly when they agree up to key order. */
  lemma PreimagesAgreeIff(a: Signed, b: Signed, render: Json -> Bytes)
    requires WellFormed(a.value) && WellFormed(b.value)
    requires forall x, y :: render(x) == render(y) ==> x == y
    requires forall p | p in PartsOf(a, render) || p in PartsOf(b, render) :: |p| < TWO_POW_32
    ensures ColumnSigPreimage(a, render) == ColumnSigPreimage(b, render) <==>
            (a.(value := JNull) == b.(value := JNull) && SameButOrder(a.value, b.value))
  {
    hide Canonicalize, SameButOrder, WellFormed, Prefixed, Be32;
    var pa, pb := PartsOf(a, render), PartsOf(b, render);
    PreimageIsUnambiguous(pa, pb);
    CanonicalizeIff(a.value, b.value);
    assert pa == pb <==> pa[0] == pb[0] && pa[1] == pb[1] && pa[2] == pb[2] && pa[3] == pb[3] && pa[4] == pb[4];
  }
}
