/**
 * The writer's register of generated files, `$packages[$package][$subpackage][$name]
 * = $filename`: three levels of PHP arrays with string keys. A PHP array keeps its
 * keys in insertion order, and assigning to a present key changes the value in
 * place, so each level is a sequence of key/value pairs. `ksort` reorders the top
 * level by key before the table of contents lists every entry.
 */
module Catalog {
  import opened DocTree
  import opened Strings

  /** One level of the register: key/value pairs in insertion order. */
  type Shelf<V> = seq<(string, V)>

  function Keys<V>(m: Shelf<V>): (r: seq<string>)
    ensures |r| == |m| && forall i :: 0 <= i < |m| ==> r[i] == m[i].0
  {
    seq(|m|, i requires 0 <= i < |m| => m[i].0)
  }

  /** A PHP array never holds a key twice. */
  predicate Distinct<V>(m: Shelf<V>)
  {
    forall i, j :: 0 <= i < j < |m| ==> m[i].0 != m[j].0
  }

  /** The position of key `k`, if present. */
  function IndexOf<V>(m: Shelf<V>, k: string): (r: Option<nat>)
    ensures r.None? <==> k !in Keys(m)
    ensures r.Some? ==> r.value < |m| && m[r.value].0 == k
                        && forall j :: 0 <= j < r.value ==> m[j].0 != k
  {
    if |m| == 0 then None
    else if m[0].0 == k then Some(0)
    else
      var r := IndexOf(m[1..], k);
      IndexOfShift(m, k, r);
      match r
      case None => None
      case Some(i) => Some(i + 1)
  }

  /** A position in the tail, one further along in the whole shelf. */
  lemma IndexOfShift<V>(m: Shelf<V>, k: string, r: Option<nat>)
    requires |m| > 0 && m[0].0 != k
    requires r.None? <==> k !in Keys(m[1..])
    requires r.Some? ==> r.value < |m| - 1 && m[1..][r.value].0 == k
                         && forall j :: 0 <= j < r.value ==> m[1..][j].0 != k
    ensures r.None? <==> k !in Keys(m)
    ensures r.Some? ==> r.value + 1 < |m| && m[r.value + 1].0 == k
                        && forall j :: 0 <= j < r.value + 1 ==> m[j].0 != k
  {
    KeysCons(m);
    if r.Some? {
      forall j | 0 <= j < r.value + 1 ensures m[j].0 != k {
        if j > 0 { assert m[j] == m[1..][j - 1]; }
      }
    }
  }

  lemma KeysCons<V>(m: Shelf<V>)
    requires |m| > 0
    ensures Keys(m) == [m[0].0] + Keys(m[1..])
  {
    var l, r := Keys(m), [m[0].0] + Keys(m[1..]);
    forall i | 0 <= i < |m| ensures l[i] == r[i] {
      if i > 0 { assert r[i] == Keys(m[1..])[i - 1]; }
    }
  }

  lemma IndexOfAt<V>(m: Shelf<V>, k: string, i: nat)
    requires i < |m| && m[i].0 == k && forall j :: 0 <= j < i ==> m[j].0 != k
    ensures IndexOf(m, k) == Some(i)
  {
    assert k in Keys(m) by { assert Keys(m)[i] == k; }
  }

  /** `$m[$k]` as the nested assignment reads it: the value, or `empty` when the key
      is absent (PHP creates an empty array there). */
  function Get<V>(m: Shelf<V>, k: string, empty: V): V
  {
    match IndexOf(m, k)
    case Some(i) => m[i].1
    case None => empty
  }

  /** `$m[$k] = $v`: a present key keeps its place and takes the new value; a new
      key is appended. */
  function Assign<V>(m: Shelf<V>, k: string, v: V): Shelf<V>
  {
    match IndexOf(m, k)
    case Some(i) => m[i := (k, v)]
    case None => m + [(k, v)]
  }

  /** Assignment keeps the order of the keys and adds `k` last when it is new. */
  lemma AssignKeys<V>(m: Shelf<V>, k: string, v: V)
    ensures Keys(Assign(m, k, v)) == if k in Keys(m) then Keys(m) else Keys(m) + [k]
  {
  }

  /** Reading after assigning: `k` yields the new value, every other key what it
      held before. */
  lemma AssignGet<V>(m: Shelf<V>, k: string, v: V, k2: string, empty: V)
    ensures Get(Assign(m, k, v), k2, empty) == if k2 == k then v else Get(m, k2, empty)
  {
    var r := Assign(m, k, v);
    AssignKeys(m, k, v);
    match IndexOf(m, k)
    case Some(i) =>
      if k2 == k {
        IndexOfAt(r, k, i);
      } else {
        match IndexOf(m, k2)
        case Some(j) => IndexOfAt(r, k2, j);
        case None =>
      }
    case None =>
      if k2 == k {
        IndexOfAt(r, k, |m|);
      } else {
        match IndexOf(m, k2)
        case Some(j) => IndexOfAt(r, k2, j);
        case None => assert k2 !in Keys(r);
      }
  }

  lemma AssignDistinct<V>(m: Shelf<V>, k: string, v: V)
    requires Distinct(m)
    ensures Distinct(Assign(m, k, v))
  {
    AssignKeys(m, k, v);
    var r := Assign(m, k, v);
    forall i, j | 0 <= i < j < |r| ensures r[i].0 != r[j].0 {
      assert r[i].0 == Keys(r)[i] && r[j].0 == Keys(r)[j];
      if j == |m| {
        assert Keys(m)[i] == m[i].0;
      }
    }
  }

  /** Every pair after an assignment is the assigned one or a pair that was there. */
  lemma AssignPairs<V>(m: Shelf<V>, k: string, v: V)
    ensures forall x :: x in Assign(m, k, v) ==> x == (k, v) || x in m
  {
  }

  lemma GetIn<V>(m: Shelf<V>, k: string, empty: V)
    ensures Get(m, k, empty) == empty || exists x :: x in m && x.1 == Get(m, k, empty)
  {
    match IndexOf(m, k)
    case Some(i) => assert m[i] in m;
    case None =>
  }

  // ---------------------------------------------------------------------------
  // The three-level register

  type Elements = Shelf<string>
  type Subpackages = Shelf<Elements>
  type Register = Shelf<Subpackages>

  /** The invariant of a PHP array, at every level. */
  predicate ValidSubpackages(subs: Subpackages)
  {
    Distinct(subs) && forall x :: x in subs ==> Distinct(x.1)
  }

  predicate Valid(c: Register)
  {
    Distinct(c) && forall x :: x in c ==> ValidSubpackages(x.1)
  }

  /** `$this->packages[$package][$subpackage][$name] = $filename`. */
  function Put(c: Register, p: string, s: string, n: string, f: string): Register
  {
    var subs := Get(c, p, []);
    var elems := Get(subs, s, []);
    Assign(c, p, Assign(subs, s, Assign(elems, n, f)))
  }

  /** The file registered under package `p`, subpackage `s` and name `n`. */
  function Lookup(c: Register, p: string, s: string, n: string): Option<string>
  {
    var subs := Get(c, p, []);
    var elems := Get(subs, s, []);
    if p in Keys(c) && s in Keys(subs) && n in Keys(elems) then Some(Get(elems, n, "")) else None
  }

  /** Registering stores the file under its three keys and changes nothing else. */
  lemma PutLookup(c: Register, p: string, s: string, n: string, f: string, p2: string, s2: string, n2: string)
    ensures Lookup(Put(c, p, s, n, f), p2, s2, n2)
            == if p2 == p && s2 == s && n2 == n then Some(f) else Lookup(c, p2, s2, n2)
  {
    var subs := Get(c, p, []);
    var elems := Get(subs, s, []);
    var elems2 := Assign(elems, n, f);
    var subs2 := Assign(subs, s, elems2);
    AssignKeys(c, p, subs2);
    AssignGet(c, p, subs2, p2, []);
    if p2 == p {
      AssignKeys(subs, s, elems2);
      AssignGet(subs, s, elems2, s2, []);
      if s2 == s {
        AssignKeys(elems, n, f);
        AssignGet(elems, n, f, n2, "");
      }
    }
  }

  /** Registering keeps every level free of repeated keys. */
  lemma PutValid(c: Register, p: string, s: string, n: string, f: string)
    requires Valid(c)
    ensures Valid(Put(c, p, s, n, f))
  {
    var subs := Get(c, p, []);
    var elems := Get(subs, s, []);
    GetIn(c, p, []);
    assert ValidSubpackages(subs);
    GetIn(subs, s, []);
    assert Distinct(elems);
    var elems2 := Assign(elems, n, f);
    AssignDistinct(elems, n, f);
    var subs2 := Assign(subs, s, elems2);
    AssignDistinct(subs, s, elems2);
    AssignPairs(subs, s, elems2);
    assert ValidSubpackages(subs2);
    AssignDistinct(c, p, subs2);
    AssignPairs(c, p, subs2);
  }

  /** Registering a new package appends it; a known one keeps its place. */
  lemma PutPackageOrder(c: Register, p: string, s: string, n: string, f: string)
    ensures Keys(Put(c, p, s, n, f)) == if p in Keys(c) then Keys(c) else Keys(c) + [p]
  {
    AssignKeys(c, p, Assign(Get(c, p, []), s, Assign(Get(Get(c, p, []), s, []), n, f)));
  }

  /** Within the package, a new subpackage is appended to the subpackage order and
      a known one keeps its place. */
  lemma PutSubpackageOrder(c: Register, p: string, s: string, n: string, f: string)
    ensures Keys(Get(Put(c, p, s, n, f), p, []))
            == if s in Keys(Get(c, p, [])) then Keys(Get(c, p, [])) else Keys(Get(c, p, [])) + [s]
  {
    var subs := Get(c, p, []);
    var elems := Get(subs, s, []);
    AssignGet(c, p, Assign(subs, s, Assign(elems, n, f)), p, []);
    AssignKeys(subs, s, Assign(elems, n, f));
  }

  /** Within the subpackage, a new name is appended to the name order and a known
      one keeps its place. */
  lemma PutNameOrder(c: Register, p: string, s: string, n: string, f: string)
    ensures Keys(Get(Get(Put(c, p, s, n, f), p, []), s, []))
            == if n in Keys(Get(Get(c, p, []), s, [])) then Keys(Get(Get(c, p, []), s, []))
               else Keys(Get(Get(c, p, []), s, [])) + [n]
  {
    var subs := Get(c, p, []);
    var elems := Get(subs, s, []);
    AssignGet(c, p, Assign(subs, s, Assign(elems, n, f)), p, []);
    AssignGet(subs, s, Assign(elems, n, f), s, []);
    AssignKeys(elems, n, f);
  }

  // ---------------------------------------------------------------------------
  // `ksort` on the package level

  /** Byte-wise string order, as PHP compares two non-numeric keys. */
  predicate StrLe(a: string, b: string)
  {
    if |a| == 0 then true
    else if |b| == 0 then false
    else if a[0] != b[0] then a[0] < b[0]
    else StrLe(a[1..], b[1..])
  }

  lemma {:induction false} StrLeTotal(a: string, b: string)
    ensures StrLe(a, b) || StrLe(b, a)
  {
    if |a| > 0 && |b| > 0 && a[0] == b[0] {
      StrLeTotal(a[1..], b[1..]);
    }
  }

  lemma {:induction false} StrLeTransitive(a: string, b: string, c: string)
    requires StrLe(a, b) && StrLe(b, c)
    ensures StrLe(a, c)
  {
    if |a| > 0 && |b| > 0 && |c| > 0 && a[0] == b[0] && b[0] == c[0] {
      StrLeTransitive(a[1..], b[1..], c[1..]);
    }
  }

  /** Each key is at most the next one. */
  predicate Sorted<V>(m: Shelf<V>)
  {
    forall i :: 0 < i < |m| ==> StrLe(m[i - 1].0, m[i].0)
  }

  /** `x` placed before the first pair whose key it does not exceed. */
  function Insert<V>(x: (string, V), m: Shelf<V>): (r: Shelf<V>)
    ensures multiset(r) == multiset(m) + multiset{x}
    ensures |r| == |m| + 1 && (r[0] == x || (|m| > 0 && r[0] == m[0]))
    ensures Sorted(m) ==> Sorted(r)
  {
    if |m| == 0 then [x]
    else if StrLe(x.0, m[0].0) then [x] + m
    else
      var t := Insert(x, m[1..]);
      StrLeTotal(x.0, m[0].0);
      assert m == [m[0]] + m[1..];
      assert Sorted(m) ==> Sorted(m[1..]) by {
        if Sorted(m) {
          forall i | 0 < i < |m[1..]| ensures StrLe(m[1..][i - 1].0, m[1..][i].0) {
            assert m[1..][i - 1] == m[i] && m[1..][i] == m[i + 1];
          }
        }
      }
      [m[0]] + t
  }

  /** `ksort`: the pairs reordered by key. */
  function KSort<V>(m: Shelf<V>): (r: Shelf<V>)
    ensures multiset(r) == multiset(m)
    ensures Sorted(r)
  {
    if |m| == 0 then []
    else
      assert m == [m[0]] + m[1..];
      Insert(m[0], KSort(m[1..]))
  }

  /** Sorting moves pairs and never changes them: each key keeps its subpackages. */
  lemma KSortSamePairs<V>(m: Shelf<V>, x: (string, V))
    ensures x in KSort(m) <==> x in m
  {
    assert x in KSort(m) <==> x in multiset(KSort(m));
  }

  /** Sorted keys follow each other in order, not just pairwise. */
  lemma {:induction false} SortedOrdered<V>(m: Shelf<V>, i: nat, j: nat)
    requires Sorted(m) && i <= j < |m|
    ensures StrLe(m[i].0, m[j].0)
  {
    if i == j {
      StrLeReflexive(m[i].0);
    } else {
      SortedOrdered(m, i, j - 1);
      StrLeTransitive(m[i].0, m[j - 1].0, m[j].0);
    }
  }

  lemma {:induction false} StrLeReflexive(a: string)
    ensures StrLe(a, a)
  {
    if |a| > 0 {
      StrLeReflexive(a[1..]);
    }
  }

  /** Sorting a register keeps it free of repeated keys. */
  lemma KSortValid(c: Register)
    requires Valid(c)
    ensures Valid(KSort(c))
  {
    var r := KSort(c);
    forall x | x in r ensures ValidSubpackages(x.1) {
      KSortSamePairs(c, x);
    }
    forall i, j | 0 <= i < j < |r| ensures r[i].0 != r[j].0 {
      DistinctCountOne(c, r[i]);
      NoRepeatAt(r, i, j);
      KSortSamePairs(c, r[i]);
      KSortSamePairs(c, r[j]);
      DistinctKeyOnce(c, r[i]);
    }
  }

  /** In a shelf without repeated keys, a pair occurs at most once. */
  lemma {:induction false} DistinctCountOne<V>(m: Shelf<V>, x: (string, V))
    requires Distinct(m)
    ensures multiset(m)[x] <= 1
  {
    if |m| > 0 {
      assert m == [m[0]] + m[1..];
      assert Distinct(m[1..]) by {
        forall i, j | 0 <= i < j < |m[1..]| ensures m[1..][i].0 != m[1..][j].0 {
          assert m[1..][i] == m[i + 1] && m[1..][j] == m[j + 1];
        }
      }
      DistinctCountOne(m[1..], x);
      if m[0] == x {
        assert x !in m[1..] by {
          forall i | 0 <= i < |m[1..]| ensures m[1..][i] != x {
            assert m[1..][i] == m[i + 1];
          }
        }
      }
    }
  }

  /** A pair counted at most once is not repeated at a later position. */
  lemma NoRepeatAt<V>(m: Shelf<V>, i: nat, j: nat)
    requires i < j < |m| && multiset(m)[m[i]] <= 1
    ensures m[i] != m[j]
  {
    assert m == m[..j] + [m[j]] + m[j + 1..];
    assert m[..j][i] == m[i];
    assert multiset(m) == multiset(m[..j]) + multiset{m[j]} + multiset(m[j + 1..]);
  }

  /** In a shelf without repeated keys, two pairs with the same key are equal. */
  lemma DistinctKeyOnce<V>(m: Shelf<V>, x: (string, V))
    requires Distinct(m)
    ensures forall y :: y in m && x in m && y.0 == x.0 ==> y == x
  {
  }

  // ---------------------------------------------------------------------------
  // The entries the table of contents lists

  datatype Entry = Entry(package: string, subpackage: string, name: string)

  function ElementEntries(p: string, s: string, es: Elements): (r: seq<Entry>)
    ensures |r| == |es| && forall k :: 0 <= k < |es| ==> r[k] == Entry(p, s, es[k].0)
  {
    seq(|es|, k requires 0 <= k < |es| => Entry(p, s, es[k].0))
  }

  /** The entries of one package, subpackage by subpackage. */
  function SubpackageEntries(p: string, subs: Subpackages): seq<Entry>
  {
    if |subs| == 0 then []
    else SubpackageEntries(p, subs[..|subs| - 1]) + ElementEntries(p, subs[|subs| - 1].0, subs[|subs| - 1].1)
  }

  /** Every entry of the register, in the order of the three nested loops. */
  function Entries(c: Register): seq<Entry>
  {
    if |c| == 0 then []
    else Entries(c[..|c| - 1]) + SubpackageEntries(c[|c| - 1].0, c[|c| - 1].1)
  }

  lemma {:induction false} SubpackageEntriesMember(p: string, subs: Subpackages, e: Entry)
    ensures e in SubpackageEntries(p, subs) <==>
            e.package == p && exists x :: x in subs && x.0 == e.subpackage && e.name in Keys(x.1)
  {
    if |subs| > 0 {
      var n := |subs| - 1;
      SubpackageEntriesMember(p, subs[..n], e);
      assert subs == subs[..n] + [subs[n]];
      var last := subs[n];
      assert e in ElementEntries(p, last.0, last.1) <==>
             e.package == p && e.subpackage == last.0 && e.name in Keys(last.1) by {
        if e.name in Keys(last.1) {
          var k :| 0 <= k < |last.1| && Keys(last.1)[k] == e.name;
          assert ElementEntries(p, last.0, last.1)[k] == Entry(p, last.0, e.name);
        }
      }
    }
  }

  /** An entry is listed exactly when some package pair holds it; the order of the
      pairs does not matter. */
  lemma {:induction false} EntriesMember(c: Register, e: Entry)
    ensures e in Entries(c) <==> exists x :: x in c && x.0 == e.package && e in SubpackageEntries(x.0, x.1)
  {
    if |c| > 0 {
      var n := |c| - 1;
      EntriesMember(c[..n], e);
      assert Entries(c) == Entries(c[..n]) + SubpackageEntries(c[n].0, c[n].1);
      HoldsSnoc(c, e);
      SubpackageEntriesMember(c[n].0, c[n].1, e);
    } else {
      assert Entries(c) == [];
    }
  }

  /** Some pair of `c` lists `e` exactly when some pair before the last does, or
      the last one does. */
  lemma HoldsSnoc(c: Register, e: Entry)
    requires |c| > 0
    ensures (exists x :: x in c && x.0 == e.package && e in SubpackageEntries(x.0, x.1))
            <==> (exists x :: x in c[..|c| - 1] && x.0 == e.package && e in SubpackageEntries(x.0, x.1))
                 || (c[|c| - 1].0 == e.package && e in SubpackageEntries(c[|c| - 1].0, c[|c| - 1].1))
  {
    var n := |c| - 1;
    if exists x :: x in c && x.0 == e.package && e in SubpackageEntries(x.0, x.1) {
      var x :| x in c && x.0 == e.package && e in SubpackageEntries(x.0, x.1);
      assert c == c[..n] + [c[n]];
      assert x in c[..n] || x == c[n];
    }
    if exists x :: x in c[..n] && x.0 == e.package && e in SubpackageEntries(x.0, x.1) {
      var x :| x in c[..n] && x.0 == e.package && e in SubpackageEntries(x.0, x.1);
      assert x in c;
    }
    assert c[n] in c;
  }

  /** In a valid register, the entries are exactly the registered files' keys. */
  lemma EntriesAreRegistered(c: Register, e: Entry)
    requires Valid(c)
    ensures e in Entries(c) <==> Lookup(c, e.package, e.subpackage, e.name).Some?
  {
    EntriesMember(c, e);
    var subs := Get(c, e.package, []);
    var elems := Get(subs, e.subpackage, []);
    match IndexOf(c, e.package)
    case None =>
    case Some(i) =>
      assert c[i] in c;
      SubpackageEntriesMember(c[i].0, c[i].1, e);
      match IndexOf(subs, e.subpackage)
      case None =>
      case Some(j) =>
        assert subs[j] in subs;
  }

  /** Sorting does not change which entries are listed. */
  lemma KSortEntries(c: Register, e: Entry)
    ensures e in Entries(KSort(c)) <==> e in Entries(c)
  {
    EntriesMember(c, e);
    EntriesMember(KSort(c), e);
    forall x ensures x in KSort(c) <==> x in c {
      KSortSamePairs(c, x);
    }
  }

  /** The rows of a subpackage depend only on its names, not on their files. */
  lemma ElementEntriesByKeys(p: string, s: string, a: Elements, b: Elements)
    requires Keys(a) == Keys(b)
    ensures ElementEntries(p, s, a) == ElementEntries(p, s, b)
  {
    assert |a| == |Keys(a)| == |Keys(b)| == |b|;
    forall k | 0 <= k < |a| ensures ElementEntries(p, s, a)[k] == ElementEntries(p, s, b)[k] {
      assert Keys(a)[k] == Keys(b)[k];
    }
  }

  lemma {:induction false} SubpackageEntriesUpdate(p: string, subs: Subpackages, j: nat, x: Elements)
    requires j < |subs| && Keys(x) == Keys(subs[j].1)
    ensures SubpackageEntries(p, subs[j := (subs[j].0, x)]) == SubpackageEntries(p, subs)
  {
    var u := subs[j := (subs[j].0, x)];
    var n := |subs| - 1;
    if j == n {
      assert u[..n] == subs[..n];
      ElementEntriesByKeys(p, subs[n].0, x, subs[n].1);
    } else {
      assert u[..n] == subs[..n][j := (subs[j].0, x)];
      SubpackageEntriesUpdate(p, subs[..n], j, x);
    }
  }

  lemma {:induction false} EntriesUpdate(c: Register, i: nat, x: Subpackages)
    requires i < |c| && SubpackageEntries(c[i].0, x) == SubpackageEntries(c[i].0, c[i].1)
    ensures Entries(c[i := (c[i].0, x)]) == Entries(c)
  {
    var u := c[i := (c[i].0, x)];
    var n := |c| - 1;
    if i == n {
      assert u[..n] == c[..n];
    } else {
      assert u[..n] == c[..n][i := (c[i].0, x)];
      EntriesUpdate(c[..n], i, x);
    }
  }

  /** Registering a key that is already there replaces its file in place: no row is
      added and none moves. */
  lemma PutExistingKeepsEntries(c: Register, p: string, s: string, n: string, f: string)
    requires Lookup(c, p, s, n).Some?
    ensures Entries(Put(c, p, s, n, f)) == Entries(c)
  {
    var subs := Get(c, p, []);
    var elems := Get(subs, s, []);
    var i := IndexOf(c, p).value;
    var j := IndexOf(subs, s).value;
    var elems2 := Assign(elems, n, f);
    AssignKeys(elems, n, f);
    var subs2 := Assign(subs, s, elems2);
    assert subs2 == subs[j := (subs[j].0, elems2)];
    SubpackageEntriesUpdate(p, subs, j, elems2);
    assert Put(c, p, s, n, f) == c[i := (c[i].0, subs2)];
    EntriesUpdate(c, i, subs2);
  }

  /** No subpackage lists a row twice. */
  lemma {:induction false} SubpackageEntriesDistinct(p: string, subs: Subpackages)
    requires ValidSubpackages(subs)
    ensures forall i, j :: 0 <= i < j < |SubpackageEntries(p, subs)| ==> SubpackageEntries(p, subs)[i] != SubpackageEntries(p, subs)[j]
  {
    if |subs| > 0 {
      var n := |subs| - 1;
      var front := SubpackageEntries(p, subs[..n]);
      var last := subs[n];
      var back := ElementEntries(p, last.0, last.1);
      var all := SubpackageEntries(p, subs);
      assert all == front + back;
      assert last in subs;
      assert ValidSubpackages(subs[..n]) by {
        forall x | x in subs[..n] ensures Distinct(x.1) { assert x in subs; }
      }
      SubpackageEntriesDistinct(p, subs[..n]);
      forall i, j | 0 <= i < j < |all| ensures all[i] != all[j] {
        if j < |front| {
          assert all[i] == front[i] && all[j] == front[j];
        } else if i >= |front| {
          assert all[i] == back[i - |front|] && all[j] == back[j - |front|];
          assert last.1[i - |front|].0 != last.1[j - |front|].0;
        } else {
          var e := front[i];
          assert all[i] == e && all[j] == back[j - |front|];
          SubpackageEntriesMember(p, subs[..n], e);
          var x :| x in subs[..n] && x.0 == e.subpackage && e.name in Keys(x.1);
          var m :| 0 <= m < n && subs[..n][m] == x;
          assert subs[m].0 != subs[n].0;
        }
      }
    }
  }

  /** In a valid register no row is listed twice. */
  lemma {:induction false} EntriesDistinct(c: Register)
    requires Valid(c)
    ensures forall i, j :: 0 <= i < j < |Entries(c)| ==> Entries(c)[i] != Entries(c)[j]
  {
    if |c| > 0 {
      var n := |c| - 1;
      var front := Entries(c[..n]);
      var back := SubpackageEntries(c[n].0, c[n].1);
      var all := Entries(c);
      assert all == front + back;
      assert c[n] in c;
      assert Valid(c[..n]) by {
        forall x | x in c[..n] ensures ValidSubpackages(x.1) { assert x in c; }
      }
      EntriesDistinct(c[..n]);
      SubpackageEntriesDistinct(c[n].0, c[n].1);
      forall i, j | 0 <= i < j < |all| ensures all[i] != all[j] {
        if j < |front| {
          assert all[i] == front[i] && all[j] == front[j];
        } else if i >= |front| {
          assert all[i] == back[i - |front|] && all[j] == back[j - |front|];
        } else {
          var e := front[i];
          var d := back[j - |front|];
          assert all[i] == e && all[j] == d;
          EntriesMember(c[..n], e);
          var x :| x in c[..n] && x.0 == e.package && e in SubpackageEntries(x.0, x.1);
          var m :| 0 <= m < n && c[..n][m] == x;
          assert c[m].0 != c[n].0;
          SubpackageEntriesMember(c[n].0, c[n].1, d);
        }
      }
    }
  }

  // ---------------------------------------------------------------------------
  // The table of contents

  const TocHeader: string := "API Documentation\n-----------------\n\n.. toctree::\n"

  /** `"\n\t$package/$subpackage/$element"`. */
  function Row(e: Entry): string
  {
    "\n\t" + e.package + "/" + e.subpackage + "/" + e.name
  }

  function Rows(es: seq<Entry>): string
  {
    if |es| == 0 then "" else Rows(es[..|es| - 1]) + Row(es[|es| - 1])
  }

  lemma {:induction false} RowsAppend(a: seq<Entry>, b: seq<Entry>)
    ensures Rows(a + b) == Rows(a) + Rows(b)
  {
    if |b| > 0 {
      var n := |b| - 1;
      assert (a + b)[..|a + b| - 1] == a + b[..n];
      RowsAppend(a, b[..n]);
    } else {
      assert a + b == a;
    }
  }

  /** The index file: the header, then one row per entry of the sorted register. */
  function Toc(sorted: Register): string
  {
    TocHeader + Rows(Entries(sorted))
  }
}
