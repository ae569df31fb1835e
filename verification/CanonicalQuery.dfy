/**
 The canonical form of a query, which ties a cursor to the filters and sort it was issued for: strings in Unicode
 NFC, object keys and scalar arrays sorted by localeCompare. Collation and normalisation are parameters.
 */
module CanonicalQuery {
  import opened Sorting

  /** Parsed JSON; a number is carried as the text String() gives for it. */
  datatype Json =
    | Null
    | Bool(b: bool)
    | Num(digits: string)
    | Str(s: string)
    | Arr(items: seq<Json>)
    | Obj(fields: seq<Field>)
  datatype Field = Field(key: string, value: Json)

  datatype Locale = Locale(collate: (string, string) -> int, nfc: string -> string)

  /** localeCompare is a total preorder that does not tell a string from its normal form. */
  ghost predicate Lawful(l: Locale) {
    && (forall a, b {:trigger l.collate(a, b)} :: l.collate(a, b) < 0 <==> l.collate(b, a) > 0)
    && (forall a, b, c {:trigger l.collate(a, b), l.collate(b, c)} ::
         l.collate(a, b) <= 0 && l.collate(b, c) <= 0 ==> l.collate(a, c) <= 0)
    && (forall a, b {:trigger l.collate(l.nfc(a), b)} ::
         (l.collate(l.nfc(a), b) < 0 <==> l.collate(a, b) < 0) && (l.collate(l.nfc(a), b) > 0 <==> l.collate(a, b) > 0))
    && (forall a {:trigger l.nfc(a)} :: l.nfc(l.nfc(a)) == l.nfc(a))
  }

  predicate IsScalar(v: Json) {
    !v.Arr? && !v.Obj?
  }

  predicate AllScalar(items: seq<Json>) {
    forall v :: v in items ==> IsScalar(v)
  }

  function Text(v: Json): string {
    match v
    case Null => "null"
    case Bool(b) => if b then "true" else "false"
    case Num(digits) => digits
    case Str(s) => s
    case Arr(_) => ""
    case Obj(_) => ""
  }

  function CompareScalars(l: Locale): (Json, Json) -> int {
    (a, b) => l.collate(Text(a), Text(b))
  }

  function CompareKeys(l: Locale): (Field, Field) -> int {
    (a: Field, b: Field) => l.collate(a.key, b.key)
  }

  function Normal(l: Locale, v: Json): Json {
    if v.Str? then Str(l.nfc(v.s)) else v
  }

  function NormalAll(l: Locale, items: seq<Json>): seq<Json> {
    if items == [] then [] else [Normal(l, items[0])] + NormalAll(l, items[1..])
  }

  /** A scalar array: sorted first, then normalised. */
  function CanonScalars(l: Locale, items: seq<Json>): seq<Json> {
    NormalAll(l, Sort(CompareScalars(l), items))
  }

  function Canon(l: Locale, v: Json): Json
    decreases v, 0
  {
    match v
    case Arr(items) => if AllScalar(items) then Arr(CanonScalars(l, items)) else Arr(CanonItems(l, items))
    case Obj(fields) => Obj(Sort(CompareKeys(l), CanonFields(l, fields)))
    case _ => Normal(l, v)
  }

  function CanonItems(l: Locale, items: seq<Json>): (r: seq<Json>)
    ensures |r| == |items|
    decreases items, 1
  {
    if items == [] then [] else [Canon(l, items[0])] + CanonItems(l, items[1..])
  }

  /** The source sorts the entries and then canonicalises the values; sorting looks at the keys alone. */
  function CanonFields(l: Locale, fields: seq<Field>): (r: seq<Field>)
    ensures |r| == |fields|
    decreases fields, 1
  {
    if fields == [] then [] else [Field(fields[0].key, Canon(l, fields[0].value))] + CanonFields(l, fields[1..])
  }

  // ---- Sorting under a total preorder ----

  ghost predicate Preorders<T(!new)>(cmp: (T, T) -> int) {
    && (forall a, b {:trigger cmp(a, b)} :: cmp(a, b) < 0 <==> cmp(b, a) > 0)
    && (forall a, b, c {:trigger cmp(a, b), cmp(b, c)} :: cmp(a, b) <= 0 && cmp(b, c) <= 0 ==> cmp(a, c) <= 0)
  }

  ghost predicate Ascends<T(!new)>(cmp: (T, T) -> int, list: seq<T>) {
    forall i, j :: 0 <= i < j < |list| ==> cmp(list[i], list[j]) <= 0
  }

  lemma TailAscends<T(!new)>(cmp: (T, T) -> int, list: seq<T>)
    requires Ascends(cmp, list) && list != []
    ensures Ascends(cmp, list[1..]) && forall x :: x in list[1..] ==> cmp(list[0], x) <= 0
  {
    assert forall i :: 0 <= i < |list| - 1 ==> list[1..][i] == list[i + 1];
  }

  lemma PrependAscends<T(!new)>(cmp: (T, T) -> int, x: T, list: seq<T>)
    requires Ascends(cmp, list) && forall y :: y in list ==> cmp(x, y) <= 0
    ensures Ascends(cmp, [x] + list)
  {
    assert forall j :: 0 <= j < |list| ==> list[j] in list;
  }

  lemma {:induction false} InsertAscends<T(!new)>(cmp: (T, T) -> int, x: T, list: seq<T>)
    requires Preorders(cmp) && Ascends(cmp, list)
    ensures Ascends(cmp, Insert(cmp, x, list))
  {
    if list == [] {
    } else if cmp(x, list[0]) <= 0 {
      TailAscends(cmp, list);
      assert list == [list[0]] + list[1..];
      PrependAscends(cmp, x, list);
    } else {
      TailAscends(cmp, list);
      InsertAscends(cmp, x, list[1..]);
      InsertFacts(cmp, x, list[1..]);
      assert cmp(list[0], x) <= 0;
      PrependAscends(cmp, list[0], Insert(cmp, x, list[1..]));
    }
  }

  lemma {:induction false} SortAscends<T(!new)>(cmp: (T, T) -> int, list: seq<T>)
    requires Preorders(cmp)
    ensures Ascends(cmp, Sort(cmp, list))
  {
    if list != [] {
      SortAscends(cmp, list[1..]);
      InsertAscends(cmp, list[0], Sort(cmp, list[1..]));
    }
  }

  lemma {:induction false} SortOfAscending<T(!new)>(cmp: (T, T) -> int, list: seq<T>)
    requires Ascends(cmp, list)
    ensures Sort(cmp, list) == list
  {
    if list != [] {
      TailAscends(cmp, list);
      SortOfAscending(cmp, list[1..]);
      assert list == [list[0]] + list[1..];
      assert list[1..] != [] ==> list[1..][0] in list[1..];
    }
  }

  /** Comparing by a text is as lawful as comparing the texts. */
  lemma ByTextIsLawful<T(!new)>(l: Locale, text: T -> string, cmp: (T, T) -> int)
    requires Lawful(l) && forall a, b :: cmp(a, b) == l.collate(text(a), text(b))
    ensures Preorders(cmp)
  {
    forall a, b, c | cmp(a, b) <= 0 && cmp(b, c) <= 0 ensures cmp(a, c) <= 0 {
      assert l.collate(text(a), text(b)) <= 0 && l.collate(text(b), text(c)) <= 0;
    }
    forall a, b ensures cmp(a, b) < 0 <==> cmp(b, a) > 0 {
      assert cmp(a, b) == l.collate(text(a), text(b)) && cmp(b, a) == l.collate(text(b), text(a));
    }
  }

  lemma ComparisonsAreLawful(l: Locale)
    requires Lawful(l)
    ensures Preorders(CompareScalars(l)) && Preorders(CompareKeys(l))
  {
    ByTextIsLawful(l, (v: Json) => Text(v), CompareScalars(l));
    ByTextIsLawful(l, (f: Field) => f.key, CompareKeys(l));
  }

  // ---- Idempotence ----

  /** Normalising does not change how a scalar compares. */
  lemma NormalCompares(l: Locale, a: Json, b: Json)
    requires Lawful(l) && IsScalar(a) && IsScalar(b)
    ensures CompareScalars(l)(Normal(l, a), Normal(l, b)) <= 0 <==> CompareScalars(l)(a, b) <= 0
    ensures CompareScalars(l)(Normal(l, a), Normal(l, b)) == 0 <==> CompareScalars(l)(a, b) == 0
  {
    var x, y := Text(a), Text(b);
    var x', y' := Text(Normal(l, a)), Text(Normal(l, b));
    assert (l.collate(x', y') < 0 <==> l.collate(x, y') < 0) && (l.collate(x', y') > 0 <==> l.collate(x, y') > 0);
    assert (l.collate(y', x) < 0 <==> l.collate(y, x) < 0) && (l.collate(y', x) > 0 <==> l.collate(y, x) > 0);
  }

  lemma {:induction false} NormalAllFacts(l: Locale, items: seq<Json>)
    ensures |NormalAll(l, items)| == |items|
    ensures forall i :: 0 <= i < |items| ==> NormalAll(l, items)[i] == Normal(l, items[i])
  {
    if items != [] {
      NormalAllFacts(l, items[1..]);
    }
  }

  lemma NormalAllAscends(l: Locale, items: seq<Json>)
    requires Lawful(l) && AllScalar(items) && Ascends(CompareScalars(l), items)
    ensures AllScalar(NormalAll(l, items)) && Ascends(CompareScalars(l), NormalAll(l, items))
  {
    var normal := NormalAll(l, items);
    NormalAllFacts(l, items);
    assert forall i :: 0 <= i < |items| ==> items[i] in items;
    forall v | v in normal ensures IsScalar(v) {
      var i :| 0 <= i < |normal| && normal[i] == v;
    }
    forall i, j | 0 <= i < j < |normal| ensures CompareScalars(l)(normal[i], normal[j]) <= 0 {
      NormalCompares(l, items[i], items[j]);
    }
  }

  lemma CanonScalarsFacts(l: Locale, items: seq<Json>)
    requires Lawful(l) && AllScalar(items)
    ensures AllScalar(CanonScalars(l, items)) && Ascends(CompareScalars(l), CanonScalars(l, items))
  {
    ComparisonsAreLawful(l);
    SortAscends(CompareScalars(l), items);
    SortFacts(CompareScalars(l), items);
    NormalAllAscends(l, Sort(CompareScalars(l), items));
  }

  lemma CanonScalarsIdempotent(l: Locale, items: seq<Json>)
    requires Lawful(l) && AllScalar(items)
    ensures CanonScalars(l, CanonScalars(l, items)) == CanonScalars(l, items)
  {
    var sorted, canon := Sort(CompareScalars(l), items), CanonScalars(l, items);
    CanonScalarsFacts(l, items);
    SortOfAscending(CompareScalars(l), canon);
    NormalAllFacts(l, sorted);
    NormalAllFacts(l, canon);
    assert forall i :: 0 <= i < |canon| ==> Normal(l, canon[i]) == canon[i];
  }

  lemma {:induction false} InsertCommutes(l: Locale, field: Field, fields: seq<Field>)
    ensures CanonFields(l, Insert(CompareKeys(l), field, fields)) ==
            Insert(CompareKeys(l), Field(field.key, Canon(l, field.value)), CanonFields(l, fields))
  {
    if fields == [] {
      assert [field][1..] == [];
    } else if CompareKeys(l)(field, fields[0]) <= 0 {
      assert ([field] + fields)[1..] == fields;
    } else {
      InsertCommutes(l, field, fields[1..]);
      var rest := Insert(CompareKeys(l), field, fields[1..]);
      assert ([fields[0]] + rest)[1..] == rest;
    }
  }

  /** Sorting the entries before or after canonicalising their values is the same. */
  lemma {:induction false} EntriesSortEitherWay(l: Locale, fields: seq<Field>)
    ensures CanonFields(l, Sort(CompareKeys(l), fields)) == Sort(CompareKeys(l), CanonFields(l, fields))
  {
    if fields != [] {
      EntriesSortEitherWay(l, fields[1..]);
      InsertCommutes(l, fields[0], Sort(CompareKeys(l), fields[1..]));
    }
  }

  lemma CanonKeepsShape(l: Locale, v: Json)
    ensures IsScalar(Canon(l, v)) == IsScalar(v)
  {
  }

  lemma {:induction false} CanonItemsKeepsShape(l: Locale, items: seq<Json>)
    ensures AllScalar(CanonItems(l, items)) == AllScalar(items)
  {
    if items != [] {
      CanonKeepsShape(l, items[0]);
      CanonItemsKeepsShape(l, items[1..]);
      assert items == [items[0]] + items[1..];
    }
  }

  /** Entries that are canonical already are only sorted, once. */
  lemma EntriesIdempotent(l: Locale, entries: seq<Field>)
    requires Lawful(l) && CanonFields(l, entries) == entries
    ensures var sorted := Sort(CompareKeys(l), entries); Sort(CompareKeys(l), CanonFields(l, sorted)) == sorted
  {
    EntriesSortEitherWay(l, entries);
    ComparisonsAreLawful(l);
    SortAscends(CompareKeys(l), entries);
    SortOfAscending(CompareKeys(l), Sort(CompareKeys(l), entries));
  }

  /** The canonical form of a canonical form is itself. */
  lemma {:induction false} CanonIdempotent(l: Locale, v: Json)
    requires Lawful(l)
    ensures Canon(l, Canon(l, v)) == Canon(l, v)
    decreases v, 0
  {
    match v
    case Arr(items) =>
      if AllScalar(items) {
        CanonScalarsFacts(l, items);
        CanonScalarsIdempotent(l, items);
      } else {
        CanonItemsKeepsShape(l, items);
        CanonItemsIdempotent(l, items);
      }
    case Obj(fields) =>
      CanonFieldsIdempotent(l, fields);
      EntriesIdempotent(l, CanonFields(l, fields));
    case _ =>
  }

  lemma {:induction false} CanonItemsIdempotent(l: Locale, items: seq<Json>)
    requires Lawful(l)
    ensures CanonItems(l, CanonItems(l, items)) == CanonItems(l, items)
    decreases items, 1
  {
    if items != [] {
      CanonIdempotent(l, items[0]);
      CanonItemsIdempotent(l, items[1..]);
    }
  }

  lemma {:induction false} CanonFieldsIdempotent(l: Locale, fields: seq<Field>)
    requires Lawful(l)
    ensures CanonFields(l, CanonFields(l, fields)) == CanonFields(l, fields)
    decreases fields, 1
  {
    if fields != [] {
      CanonIdempotent(l, fields[0].value);
      CanonFieldsIdempotent(l, fields[1..]);
    }
  }

  // ---- Reordering ----

  /** Scalars that compare equal are the same once normalised. */
  ghost predicate TiesAreEqual(l: Locale, items: seq<Json>) {
    forall a, b :: a in items && b in items && CompareScalars(l)(a, b) == 0 ==> Normal(l, a) == Normal(l, b)
  }

  ghost predicate DistinctKeys(l: Locale, fields: seq<Field>) {
    forall i, j :: 0 <= i < j < |fields| ==> l.collate(fields[i].key, fields[j].key) != 0
  }

  ghost predicate Separable(l: Locale, v: Json)
    decreases v
  {
    match v
    case Arr(items) =>
      if AllScalar(items) then TiesAreEqual(l, items)
      else forall i :: 0 <= i < |items| ==> Separable(l, items[i])
    case Obj(fields) =>
      DistinctKeys(l, fields) && forall i :: 0 <= i < |fields| ==> Separable(l, fields[i].value)
    case _ => true
  }

  predicate HasKey(fields: seq<Field>, key: string) {
    exists i :: 0 <= i < |fields| && fields[i].key == key
  }

  /**
   w is v with the keys of its objects and the members of its scalar arrays in any order, and with any spelling
   of the same strings.
   */
  ghost predicate Reordered(l: Locale, v: Json, w: Json)
    decreases v
  {
    match v
    case Arr(items) =>
      w.Arr? &&
      (if AllScalar(items)
       then AllScalar(w.items) && multiset(NormalAll(l, items)) == multiset(NormalAll(l, w.items))
       else !AllScalar(w.items) && |items| == |w.items| &&
            forall i :: 0 <= i < |items| ==> Reordered(l, items[i], w.items[i]))
    case Obj(fields) =>
      w.Obj? && DistinctKeys(l, w.fields)
      && (forall i :: 0 <= i < |fields| ==> HasKey(w.fields, fields[i].key))
      && (forall j :: 0 <= j < |w.fields| ==> HasKey(fields, w.fields[j].key))
      && (forall i, j :: 0 <= i < |fields| && 0 <= j < |w.fields| && fields[i].key == w.fields[j].key ==>
           Reordered(l, fields[i].value, w.fields[j].value))
    case _ => IsScalar(w) && Normal(l, v) == Normal(l, w)
  }

  lemma SameHeadByCount<T(!new)>(cmp: (T, T) -> int, a: seq<T>, b: seq<T>)
    requires Preorders(cmp) && Ascends(cmp, a) && Ascends(cmp, b) && multiset(a) == multiset(b) && a != []
    requires forall x, y :: x in a && y in a && cmp(x, y) == 0 ==> x == y
    ensures b != [] && a[0] == b[0]
  {
    assert a[0] in multiset(a) && (b != [] ==> b[0] in multiset(b));
    assert a[0] in b && b[0] in a;
    var i :| 0 <= i < |b| && b[i] == a[0];
    var j :| 0 <= j < |a| && a[j] == b[0];
  }

  lemma TailsByCount<T(!new)>(a: seq<T>, b: seq<T>)
    requires a != [] && b != [] && a[0] == b[0] && multiset(a) == multiset(b)
    ensures multiset(a[1..]) == multiset(b[1..])
    ensures forall x :: x in a[1..] ==> x in a
  {
    assert a == [a[0]] + a[1..] && b == [b[0]] + b[1..];
    assert multiset(a[1..]) == multiset(a) - multiset{a[0]};
    assert multiset(b[1..]) == multiset(b) - multiset{b[0]};
  }

  lemma {:induction false} OneAscendingList<T(!new)>(cmp: (T, T) -> int, a: seq<T>, b: seq<T>)
    requires Preorders(cmp) && Ascends(cmp, a) && Ascends(cmp, b) && multiset(a) == multiset(b)
    requires forall x, y :: x in a && y in a && cmp(x, y) == 0 ==> x == y
    ensures a == b
  {
    assert |multiset(a)| == |a| && |multiset(b)| == |b|;
    if a != [] {
      SameHeadByCount(cmp, a, b);
      TailAscends(cmp, a);
      TailAscends(cmp, b);
      TailsByCount(a, b);
      OneAscendingList(cmp, a[1..], b[1..]);
      ConsEqual(a, b);
    }
  }

  lemma {:induction false} InsertNormal(l: Locale, x: Json, items: seq<Json>)
    ensures multiset(NormalAll(l, Insert(CompareScalars(l), x, items))) ==
            multiset(NormalAll(l, items)) + multiset{Normal(l, x)}
  {
    if items == [] || CompareScalars(l)(x, items[0]) <= 0 {
      assert ([x] + items)[1..] == items;
    } else {
      InsertNormal(l, x, items[1..]);
      var rest := Insert(CompareScalars(l), x, items[1..]);
      assert ([items[0]] + rest)[1..] == rest;
    }
  }

  lemma {:induction false} SortNormal(l: Locale, items: seq<Json>)
    ensures multiset(CanonScalars(l, items)) == multiset(NormalAll(l, items))
  {
    if items != [] {
      SortNormal(l, items[1..]);
      InsertNormal(l, items[0], Sort(CompareScalars(l), items[1..]));
    }
  }

  lemma CanonTiesAreEqual(l: Locale, items: seq<Json>)
    requires Lawful(l) && AllScalar(items) && TiesAreEqual(l, items)
    ensures forall x, y ::
              x in CanonScalars(l, items) && y in CanonScalars(l, items) && CompareScalars(l)(x, y) == 0 ==> x == y
  {
    var sorted, canon := Sort(CompareScalars(l), items), CanonScalars(l, items);
    SortFacts(CompareScalars(l), items);
    NormalAllFacts(l, sorted);
    forall x, y | x in canon && y in canon && CompareScalars(l)(x, y) == 0 ensures x == y {
      var i :| 0 <= i < |canon| && canon[i] == x;
      var j :| 0 <= j < |canon| && canon[j] == y;
      assert sorted[i] in sorted && sorted[j] in sorted;
      NormalCompares(l, sorted[i], sorted[j]);
    }
  }

  lemma ScalarsReorder(l: Locale, items: seq<Json>, items': seq<Json>)
    requires Lawful(l) && AllScalar(items) && AllScalar(items') && TiesAreEqual(l, items)
    requires multiset(NormalAll(l, items)) == multiset(NormalAll(l, items'))
    ensures CanonScalars(l, items) == CanonScalars(l, items')
  {
    ComparisonsAreLawful(l);
    CanonScalarsFacts(l, items);
    CanonScalarsFacts(l, items');
    SortNormal(l, items);
    SortNormal(l, items');
    CanonTiesAreEqual(l, items);
    OneAscendingList(CompareScalars(l), CanonScalars(l, items), CanonScalars(l, items'));
  }

  lemma {:induction false} CanonFieldsFacts(l: Locale, fields: seq<Field>)
    ensures forall i :: 0 <= i < |fields| ==>
              CanonFields(l, fields)[i] == Field(fields[i].key, Canon(l, fields[i].value))
  {
    if fields != [] {
      CanonFieldsFacts(l, fields[1..]);
    }
  }

  /** With distinct keys the canonical entries are strictly ordered. */
  lemma CanonFieldsOrder(l: Locale, fields: seq<Field>)
    requires Lawful(l) && DistinctKeys(l, fields)
    ensures Orders(CompareKeys(l), CanonFields(l, fields))
    ensures Increasing(CompareKeys(l), Sort(CompareKeys(l), CanonFields(l, fields)))
    ensures Orders(CompareKeys(l), Sort(CompareKeys(l), CanonFields(l, fields)))
  {
    var cmp, canon := CompareKeys(l), CanonFields(l, fields);
    ComparisonsAreLawful(l);
    CanonFieldsFacts(l, fields);
    forall a, b | a in canon && b in canon ensures cmp(a, b) == 0 <==> a == b {
      var i :| 0 <= i < |canon| && canon[i] == a;
      var j :| 0 <= j < |canon| && canon[j] == b;
      assert cmp(a, a) < 0 <==> cmp(a, a) > 0;
      assert cmp(a, b) < 0 <==> cmp(b, a) > 0;
      assert i < j ==> l.collate(fields[i].key, fields[j].key) != 0;
      assert j < i ==> l.collate(fields[j].key, fields[i].key) != 0;
    }
    StrictOnMembers(cmp, canon);
    forall i, j | 0 <= i < j < |canon| ensures canon[i] != canon[j] {
      assert l.collate(fields[i].key, fields[j].key) != 0;
      assert cmp(canon[i], canon[i]) < 0 <==> cmp(canon[i], canon[i]) > 0;
    }
    SortFacts(cmp, canon);
    SortIncreasing(cmp, canon);
  }

  lemma StrictOnMembers<T(!new)>(cmp: (T, T) -> int, list: seq<T>)
    requires Preorders(cmp) && forall a, b :: a in list && b in list ==> (cmp(a, b) == 0 <==> a == b)
    ensures Orders(cmp, list)
  {
    forall a, b, c | a in list && b in list && c in list && cmp(a, b) < 0 && cmp(b, c) < 0 ensures cmp(a, c) < 0 {
      assert cmp(a, c) <= 0;
      assert cmp(a, b) < 0 <==> cmp(b, a) > 0;
    }
  }

  /**
   The canonical form does not depend on the order of object keys or of scalar array members, as long as scalars
   that compare equal are equal once normalised.
   */
  lemma {:induction false} CanonIgnoresOrder(l: Locale, v: Json, w: Json)
    requires Lawful(l) && Separable(l, v) && Reordered(l, v, w)
    ensures Canon(l, v) == Canon(l, w)
    decreases v
  {
    match v
    case Arr(items) =>
      if AllScalar(items) {
        ScalarsReorder(l, items, w.items);
      } else {
        forall i | 0 <= i < |items| ensures Canon(l, items[i]) == Canon(l, w.items[i]) {
          CanonIgnoresOrder(l, items[i], w.items[i]);
        }
        SameCanonItems(l, items, w.items);
      }
    case Obj(fields) =>
      forall i, j | 0 <= i < |fields| && 0 <= j < |w.fields| && fields[i].key == w.fields[j].key
        ensures Canon(l, fields[i].value) == Canon(l, w.fields[j].value)
      {
        CanonIgnoresOrder(l, fields[i].value, w.fields[j].value);
      }
      SameCanonFields(l, fields, w.fields);
    case _ =>
  }

  lemma {:induction false} SameCanonItems(l: Locale, a: seq<Json>, b: seq<Json>)
    requires |a| == |b| && forall i :: 0 <= i < |a| ==> Canon(l, a[i]) == Canon(l, b[i])
    ensures CanonItems(l, a) == CanonItems(l, b)
  {
    if a != [] {
      SameCanonItems(l, a[1..], b[1..]);
    }
  }

  lemma CanonFieldFound(l: Locale, a: seq<Field>, b: seq<Field>, x: Field)
    requires forall i :: 0 <= i < |a| ==> HasKey(b, a[i].key)
    requires forall i, j :: 0 <= i < |a| && 0 <= j < |b| && a[i].key == b[j].key ==>
               Canon(l, a[i].value) == Canon(l, b[j].value)
    requires x in CanonFields(l, a)
    ensures x in CanonFields(l, b)
  {
    CanonFieldsFacts(l, a);
    CanonFieldsFacts(l, b);
    var i :| 0 <= i < |a| && CanonFields(l, a)[i] == x;
    var j :| 0 <= j < |b| && b[j].key == a[i].key;
    assert CanonFields(l, b)[j] == x;
  }

  lemma SameCanonFields(l: Locale, a: seq<Field>, b: seq<Field>)
    requires Lawful(l) && DistinctKeys(l, a) && DistinctKeys(l, b)
    requires forall i :: 0 <= i < |a| ==> HasKey(b, a[i].key)
    requires forall j :: 0 <= j < |b| ==> HasKey(a, b[j].key)
    requires forall i, j :: 0 <= i < |a| && 0 <= j < |b| && a[i].key == b[j].key ==>
               Canon(l, a[i].value) == Canon(l, b[j].value)
    ensures Sort(CompareKeys(l), CanonFields(l, a)) == Sort(CompareKeys(l), CanonFields(l, b))
  {
    var cmp := CompareKeys(l);
    CanonFieldsOrder(l, a);
    CanonFieldsOrder(l, b);
    SortFacts(cmp, CanonFields(l, a));
    SortFacts(cmp, CanonFields(l, b));
    forall x ensures x in CanonFields(l, a) <==> x in CanonFields(l, b) {
      if x in CanonFields(l, a) {
        CanonFieldFound(l, a, b, x);
      } else if x in CanonFields(l, b) {
        CanonFieldFound(l, b, a, x);
      }
    }
    OneOrderedList(cmp, Sort(cmp, CanonFields(l, a)), Sort(cmp, CanonFields(l, b)));
  }

  lemma CanonFieldBack(l: Locale, a: seq<Field>, b: seq<Field>, i: nat, j: nat)
    requires Lawful(l) && DistinctKeys(l, b) && i < |a| && j < |b| && a[i].key == b[j].key
    requires forall x :: x in CanonFields(l, a) ==> x in CanonFields(l, b)
    ensures Canon(l, a[i].value) == Canon(l, b[j].value)
  {
    CanonFieldsFacts(l, a);
    CanonFieldsFacts(l, b);
    var x := CanonFields(l, a)[i];
    assert x in CanonFields(l, b);
    var k :| 0 <= k < |b| && CanonFields(l, b)[k] == x;
    assert l.collate(b[k].key, b[j].key) < 0 <==> l.collate(b[j].key, b[k].key) > 0;
  }

  lemma CanonKeyBack(l: Locale, a: seq<Field>, b: seq<Field>, i: nat)
    requires i < |a| && forall x :: x in CanonFields(l, a) ==> x in CanonFields(l, b)
    ensures HasKey(b, a[i].key)
  {
    CanonFieldsFacts(l, a);
    CanonFieldsFacts(l, b);
    var x := CanonFields(l, a)[i];
    assert x in CanonFields(l, b);
    var k :| 0 <= k < |b| && CanonFields(l, b)[k] == x;
    assert b[k].key == a[i].key;
  }

  lemma SameCanonMembers(l: Locale, a: seq<Field>, b: seq<Field>)
    requires Sort(CompareKeys(l), CanonFields(l, a)) == Sort(CompareKeys(l), CanonFields(l, b))
    ensures forall x :: x in CanonFields(l, a) <==> x in CanonFields(l, b)
  {
    SortFacts(CompareKeys(l), CanonFields(l, a));
    SortFacts(CompareKeys(l), CanonFields(l, b));
  }

  lemma {:induction false} CanonItemsAt(l: Locale, items: seq<Json>, i: nat)
    requires i < |items|
    ensures CanonItems(l, items)[i] == Canon(l, items[i])
  {
    if i > 0 {
      CanonItemsAt(l, items[1..], i - 1);
    }
  }

  /** Two arrays with the same canonical form are both scalar or both not. */
  lemma CanonArrayShape(l: Locale, items: seq<Json>, items': seq<Json>)
    requires Lawful(l) && Canon(l, Arr(items)) == Canon(l, Arr(items'))
    ensures AllScalar(items) == AllScalar(items')
  {
    CanonItemsKeepsShape(l, items);
    CanonItemsKeepsShape(l, items');
    if AllScalar(items) {
      CanonScalarsFacts(l, items);
    }
    if AllScalar(items') {
      CanonScalarsFacts(l, items');
    }
  }

  /** Queries that differ in more than order have different canonical forms. */
  lemma {:induction false} CanonTellsApart(l: Locale, v: Json, w: Json)
    requires Lawful(l) && Separable(l, v) && Separable(l, w) && Canon(l, v) == Canon(l, w)
    ensures Reordered(l, v, w)
    decreases v
  {
    match v
    case Arr(items) =>
      CanonArrayShape(l, items, w.items);
      if AllScalar(items) {
        SortNormal(l, items);
        SortNormal(l, w.items);
      } else {
        forall i | 0 <= i < |items| ensures Reordered(l, items[i], w.items[i]) {
          CanonItemsAt(l, items, i);
          CanonItemsAt(l, w.items, i);
          CanonTellsApart(l, items[i], w.items[i]);
        }
      }
    case Obj(fields) =>
      SameCanonMembers(l, fields, w.fields);
      forall i | 0 <= i < |fields| ensures HasKey(w.fields, fields[i].key) {
        CanonKeyBack(l, fields, w.fields, i);
      }
      forall j | 0 <= j < |w.fields| ensures HasKey(fields, w.fields[j].key) {
        CanonKeyBack(l, w.fields, fields, j);
      }
      forall i, j | 0 <= i < |fields| && 0 <= j < |w.fields| && fields[i].key == w.fields[j].key
        ensures Reordered(l, fields[i].value, w.fields[j].value)
      {
        CanonFieldBack(l, fields, w.fields, i, j);
        CanonTellsApart(l, fields[i].value, w.fields[j].value);
      }
    case _ =>
  }

  /** Two queries share their canonical form exactly when one is a reordering of the other. */
  lemma SameCanonExactlyWhen(l: Locale, v: Json, w: Json)
    requires Lawful(l) && Separable(l, v) && Separable(l, w)
    ensures Canon(l, v) == Canon(l, w) <==> Reordered(l, v, w)
  {
    if Reordered(l, v, w) {
      CanonIgnoresOrder(l, v, w);
    } else if Canon(l, v) == Canon(l, w) {
      CanonTellsApart(l, v, w);
    }
  }

  // ---- When a scalar array's order matters ----

  /** Where an insertion lands. */
  function Place<T>(cmp: (T, T) -> int, x: T, list: seq<T>): nat {
    if list == [] || cmp(x, list[0]) <= 0 then 0 else 1 + Place(cmp, x, list[1..])
  }

  lemma TiesCompareAlike<T(!new)>(cmp: (T, T) -> int, x: T, y: T, z: T)
    requires Preorders(cmp) && cmp(x, y) == 0
    ensures cmp(y, x) == 0 && (cmp(x, z) <= 0 <==> cmp(y, z) <= 0)
  {
    assert cmp(x, y) < 0 <==> cmp(y, x) > 0;
    assert cmp(y, x) < 0 <==> cmp(x, y) > 0;
  }

  lemma {:induction false} InsertTwo<T(!new)>(cmp: (T, T) -> int, x: T, y: T, list: seq<T>)
    requires Preorders(cmp) && cmp(x, y) == 0
    ensures Place(cmp, y, list) == Place(cmp, x, list) < |Insert(cmp, x, Insert(cmp, y, list))|
    ensures Insert(cmp, x, Insert(cmp, y, list))[Place(cmp, x, list)] == x
  {
    if list != [] {
      TiesCompareAlike(cmp, x, y, list[0]);
      if cmp(x, list[0]) > 0 {
        InsertTwo(cmp, x, y, list[1..]);
        assert Insert(cmp, y, list)[1..] == Insert(cmp, y, list[1..]);
      }
    }
  }

  /** Equal-comparing scalars keep their order, so swapping two that differ shows in the canonical form. */
  lemma TiesKeepOrder(l: Locale, x: Json, y: Json, list: seq<Json>)
    requires Lawful(l) && CompareScalars(l)(x, y) == 0 && Normal(l, x) != Normal(l, y)
    ensures NormalAll(l, Insert(CompareScalars(l), x, Insert(CompareScalars(l), y, list))) !=
            NormalAll(l, Insert(CompareScalars(l), y, Insert(CompareScalars(l), x, list)))
  {
    var cmp := CompareScalars(l);
    ComparisonsAreLawful(l);
    TiesCompareAlike(cmp, x, y, x);
    InsertTwo(cmp, x, y, list);
    InsertTwo(cmp, y, x, list);
    NormalAllFacts(l, Insert(cmp, x, Insert(cmp, y, list)));
    NormalAllFacts(l, Insert(cmp, y, Insert(cmp, x, list)));
  }

  ghost predicate OrderDoesNotMatter(l: Locale, items: seq<Json>) {
    forall other {:trigger CanonScalars(l, other)} ::
      multiset(other) == multiset(items) ==> CanonScalars(l, other) == CanonScalars(l, items)
  }

  lemma BringToFront(items: seq<Json>, x: Json) returns (rest: seq<Json>)
    requires x in items
    ensures multiset(items) == multiset(rest) + multiset{x}
  {
    var i := IndexOf(items, x);
    RemoveAtCounts(items, i);
    rest := RemoveAt(items, i);
  }

  lemma TwoInFront(x: Json, y: Json, rest: seq<Json>)
    ensures multiset([x, y] + rest) == multiset(rest) + multiset{y} + multiset{x}
    ensures multiset([y, x] + rest) == multiset([x, y] + rest)
  {
    assert multiset([x, y]) == multiset([y, x]) == multiset{x} + multiset{y};
  }

  lemma WithoutTwo(items: seq<Json>, x: Json, y: Json) returns (rest: seq<Json>)
    requires x in items && y in items && x != y
    ensures multiset([x, y] + rest) == multiset(items)
    ensures multiset([y, x] + rest) == multiset(items)
  {
    var without := BringToFront(items, x);
    assert y in multiset(without) by {
      assert y in multiset(items);
    }
    rest := BringToFront(without, y);
    TwoInFront(x, y, rest);
  }

  /**
   A scalar array's canonical form is the same for every order of its members exactly when members that compare
   equal are equal once normalised.
   */
  lemma OrderIgnoredExactlyWhen(l: Locale, items: seq<Json>)
    requires Lawful(l) && AllScalar(items)
    ensures OrderDoesNotMatter(l, items) <==> TiesAreEqual(l, items)
  {
    if TiesAreEqual(l, items) {
      forall other | multiset(other) == multiset(items) ensures CanonScalars(l, other) == CanonScalars(l, items) {
        SameMembersReorder(l, items, other);
      }
    } else {
      var x, y :| x in items && y in items && CompareScalars(l)(x, y) == 0 && Normal(l, x) != Normal(l, y);
      var rest := WithoutTwo(items, x, y);
      TiesShow(l, x, y, rest);
      assert CanonScalars(l, [x, y] + rest) != CanonScalars(l, [y, x] + rest);
    }
  }

  lemma TiesShow(l: Locale, x: Json, y: Json, rest: seq<Json>)
    requires Lawful(l) && CompareScalars(l)(x, y) == 0 && Normal(l, x) != Normal(l, y)
    ensures CanonScalars(l, [x, y] + rest) != CanonScalars(l, [y, x] + rest)
  {
    TiesKeepOrder(l, x, y, Sort(CompareScalars(l), rest));
    TwoThenRest(l, x, y, rest);
    TwoThenRest(l, y, x, rest);
  }

  lemma TwoThenRest(l: Locale, x: Json, y: Json, rest: seq<Json>)
    ensures Sort(CompareScalars(l), [x, y] + rest) ==
            Insert(CompareScalars(l), x, Insert(CompareScalars(l), y, Sort(CompareScalars(l), rest)))
  {
    assert ([x, y] + rest)[1..] == [y] + rest && ([y] + rest)[1..] == rest;
  }

  lemma NormalAllRemove(l: Locale, list: seq<Json>, i: nat)
    requires i < |list|
    ensures multiset(NormalAll(l, list)) == multiset(NormalAll(l, RemoveAt(list, i))) + multiset{Normal(l, list[i])}
  {
    NormalAllSplit(l, list[..i], [list[i]] + list[i + 1..]);
    NormalAllSplit(l, list[..i], list[i + 1..]);
    assert ([list[i]] + list[i + 1..])[1..] == list[i + 1..];
    assert list == list[..i] + ([list[i]] + list[i + 1..]);
  }

  lemma {:induction false} NormalAllCounts(l: Locale, a: seq<Json>, b: seq<Json>)
    requires multiset(a) == multiset(b)
    ensures multiset(NormalAll(l, a)) == multiset(NormalAll(l, b))
    decreases |a|
  {
    assert |multiset(a)| == |a| && |multiset(b)| == |b|;
    if a != [] {
      assert a[0] in multiset(b);
      var j :| 0 <= j < |b| && b[j] == a[0];
      RemoveAtCounts(a, 0);
      RemoveAtCounts(b, j);
      NormalAllRemove(l, a, 0);
      NormalAllRemove(l, b, j);
      assert multiset(RemoveAt(a, 0)) == multiset(a) - multiset{a[0]} == multiset(RemoveAt(b, j));
      NormalAllCounts(l, RemoveAt(a, 0), RemoveAt(b, j));
    }
  }

  lemma {:induction false} NormalAllSplit(l: Locale, a: seq<Json>, b: seq<Json>)
    ensures NormalAll(l, a + b) == NormalAll(l, a) + NormalAll(l, b)
  {
    if a == [] {
      assert a + b == b;
    } else {
      assert (a + b)[1..] == a[1..] + b;
      NormalAllSplit(l, a[1..], b);
    }
  }

  lemma SameMembersReorder(l: Locale, items: seq<Json>, other: seq<Json>)
    requires Lawful(l) && AllScalar(items) && TiesAreEqual(l, items) && multiset(other) == multiset(items)
    ensures CanonScalars(l, other) == CanonScalars(l, items)
  {
    forall v | v in other ensures IsScalar(v) {
      assert v in multiset(other);
      assert v in multiset(items);
    }
    NormalAllCounts(l, items, other);
    ScalarsReorder(l, items, other);
  }

  /**
   Two filter values that localeCompare ties and NFC keeps apart, such as two that differ by an ignorable character:
   their order shows, so the two spellings of one request have different canonical queries.
   */
  lemma IgnorableCharacterExample(l: Locale, a: string, b: string)
    requires Lawful(l) && l.collate(a, b) == 0 && l.nfc(a) != l.nfc(b)
    ensures !OrderDoesNotMatter(l, [Str(a), Str(b)])
  {
    var x, y := Str(a), Str(b);
    assert Text(x) == a && Text(y) == b;
    assert CompareScalars(l)(x, y) == l.collate(Text(x), Text(y));
    assert x in [x, y] && y in [x, y] && Normal(l, x) != Normal(l, y);
    OrderIgnoredExactlyWhen(l, [x, y]);
  }

  // ---- The canonical form in plain terms ----

  /** String() of a scalar. */
  lemma TextMeans(digits: string, s: string)
    ensures Text(Null) == "null" && Text(Bool(true)) == "true" && Text(Bool(false)) == "false"
    ensures Text(Num(digits)) == digits && Text(Str(s)) == s
  {
  }

  /** Strings are normalised, other scalars are kept. */
  lemma CanonOfScalar(l: Locale, v: Json)
    requires !v.Arr? && !v.Obj?
    ensures Canon(l, v) == if v.Str? then Str(l.nfc(v.s)) else v
  {
  }

  /** out is the list, in some order that the collation of the texts ascends, with its strings normalised. */
  ghost predicate SortedAndNormal(l: Locale, items: seq<Json>, order: seq<Json>, out: seq<Json>) {
    && multiset(order) == multiset(items) && |out| == |order|
    && (forall i, j :: 0 <= i < j < |order| ==> l.collate(Text(order[i]), Text(order[j])) <= 0)
    && (forall i :: 0 <= i < |out| ==> out[i] == if order[i].Str? then Str(l.nfc(order[i].s)) else order[i])
  }

  lemma NormalInOrder(l: Locale, items: seq<Json>, order: seq<Json>)
    requires multiset(order) == multiset(items) && Ascends(CompareScalars(l), order)
    ensures SortedAndNormal(l, items, order, NormalAll(l, order))
  {
    NormalAllFacts(l, order);
    forall i, j | 0 <= i < j < |order| ensures l.collate(Text(order[i]), Text(order[j])) <= 0 {
      assert CompareScalars(l)(order[i], order[j]) <= 0;
    }
  }

  lemma AscendingStays(l: Locale, items: seq<Json>)
    requires forall i, j :: 0 <= i < j < |items| ==> l.collate(Text(items[i]), Text(items[j])) <= 0
    ensures Sort(CompareScalars(l), items) == items
  {
    forall i, j | 0 <= i < j < |items| ensures CompareScalars(l)(items[i], items[j]) <= 0 {
      assert l.collate(Text(items[i]), Text(items[j])) <= 0;
    }
    SortOfAscending(CompareScalars(l), items);
  }

  /**
   A scalar array is sorted by localeCompare of its texts, ties keeping their order at least where nothing has to move,
   and then normalised; any other array keeps its order.
   */
  lemma CanonOfArray(l: Locale, items: seq<Json>)
    requires Lawful(l)
    ensures Canon(l, Arr(items)).Arr?
    ensures (forall x :: x in items ==> !x.Arr? && !x.Obj?) ==>
              exists order :: SortedAndNormal(l, items, order, Canon(l, Arr(items)).items)
    ensures (forall x :: x in items ==> !x.Arr? && !x.Obj?)
            && (forall i, j :: 0 <= i < j < |items| ==> l.collate(Text(items[i]), Text(items[j])) <= 0) ==>
              SortedAndNormal(l, items, items, Canon(l, Arr(items)).items)
    ensures (exists x :: x in items && (x.Arr? || x.Obj?)) ==>
              |Canon(l, Arr(items)).items| == |items| &&
              forall i :: 0 <= i < |items| ==> Canon(l, Arr(items)).items[i] == Canon(l, items[i])
  {
    if AllScalar(items) {
      SortedByText(l, items);
      NormalInOrder(l, items, Sort(CompareScalars(l), items));
      if forall i, j :: 0 <= i < j < |items| ==> l.collate(Text(items[i]), Text(items[j])) <= 0 {
        AscendingStays(l, items);
      }
    } else {
      forall i | 0 <= i < |items| ensures CanonItems(l, items)[i] == Canon(l, items[i]) {
        CanonItemsAt(l, items, i);
      }
    }
  }

  /** out is the entries, in some order that the collation of the keys ascends, with their values canonicalised. */
  ghost predicate EntriesInOrder(l: Locale, fields: seq<Field>, order: seq<Field>, out: seq<Field>) {
    && multiset(order) == multiset(fields) && |out| == |order|
    && (forall i, j :: 0 <= i < j < |order| ==> l.collate(order[i].key, order[j].key) <= 0)
    && (forall i :: 0 <= i < |out| ==> out[i] == Field(order[i].key, Canon(l, order[i].value)))
  }

  lemma SortedByKey(l: Locale, fields: seq<Field>)
    requires Lawful(l)
    ensures Ascends(CompareKeys(l), Sort(CompareKeys(l), fields))
    ensures multiset(Sort(CompareKeys(l), fields)) == multiset(fields)
  {
    ComparisonsAreLawful(l);
    SortAscends(CompareKeys(l), fields);
    SortFacts(CompareKeys(l), fields);
  }

  lemma SortedByText(l: Locale, items: seq<Json>)
    requires Lawful(l)
    ensures Ascends(CompareScalars(l), Sort(CompareScalars(l), items))
    ensures multiset(Sort(CompareScalars(l), items)) == multiset(items)
  {
    ComparisonsAreLawful(l);
    SortAscends(CompareScalars(l), items);
    SortFacts(CompareScalars(l), items);
  }

  /** An object's entries are sorted by localeCompare of their keys, which are kept, and their values canonicalised. */
  lemma CanonOfObject(l: Locale, fields: seq<Field>)
    requires Lawful(l)
    ensures Canon(l, Obj(fields)).Obj?
    ensures exists order :: EntriesInOrder(l, fields, order, Canon(l, Obj(fields)).fields)
  {
    var order := Sort(CompareKeys(l), fields);
    SortedByKey(l, fields);
    EntriesSortEitherWay(l, fields);
    CanonFieldsInOrder(l, fields, order);
  }

  lemma CanonFieldsInOrder(l: Locale, fields: seq<Field>, order: seq<Field>)
    requires multiset(order) == multiset(fields) && Ascends(CompareKeys(l), order)
    ensures EntriesInOrder(l, fields, order, CanonFields(l, order))
  {
    CanonFieldsFacts(l, order);
    forall i, j | 0 <= i < j < |order| ensures l.collate(order[i].key, order[j].key) <= 0 {
      assert CompareKeys(l)(order[i], order[j]) <= 0;
    }
  }
}
