/** Byte order on strings, and sorting by a string key: a sorted listing is unique,
    so nothing that is sorted can show the order it was collected in. */
module Order {

  predicate Before(a: string, b: string) {
    if a == [] then b != []
    else b != [] && (a[0] < b[0] || (a[0] == b[0] && Before(a[1..], b[1..])))
  }

  lemma {:induction false} BeforeIsTotal(a: string, b: string)
    ensures Before(a, b) || a == b || Before(b, a)
    ensures !(Before(a, b) && Before(b, a))
    ensures !Before(a, a)
  {
    if a != [] && b != [] {
      BeforeIsTotal(a[1..], b[1..]);
      assert a == [a[0]] + a[1..] && b == [b[0]] + b[1..];
    }
    if a != [] {
      BeforeIsTotal(a[1..], a[1..]);
    }
  }

  lemma {:induction false} BeforeIsTransitive(a: string, b: string, c: string)
    requires Before(a, b) && Before(b, c)
    ensures Before(a, c)
  {
    if a != [] && a[0] == b[0] == c[0] {
      BeforeIsTransitive(a[1..], b[1..], c[1..]);
    }
  }

  /** The strings agree up to there, where the first ends or has the smaller byte. */
  predicate DivergesAt(a: string, b: string, n: nat) {
    n <= |a| && n <= |b| && a[..n] == b[..n] && n < |b| && (n == |a| || a[n] < b[n])
  }

  lemma {:induction false} BeforeExactly(a: string, b: string)
    ensures Before(a, b) <==> exists n: nat :: DivergesAt(a, b, n)
  {
    if a == [] || b == [] {
      assert a == [] && b != [] ==> DivergesAt(a, b, 0);
    } else {
      BeforeExactly(a[1..], b[1..]);
      if a[0] < b[0] {
        assert DivergesAt(a, b, 0);
      }
      if n: nat :| a[0] == b[0] && DivergesAt(a[1..], b[1..], n) {
        assert a[..n + 1] == [a[0]] + a[1..][..n] && b[..n + 1] == [b[0]] + b[1..][..n];
        assert DivergesAt(a, b, n + 1);
      }
      if n: nat :| DivergesAt(a, b, n) && n > 0 {
        assert a[..n][0] == a[0] && b[..n][0] == b[0];
        assert a[1..][..n - 1] == a[..n][1..] && b[1..][..n - 1] == b[..n][1..];
        assert DivergesAt(a[1..], b[1..], n - 1);
      }
    }
  }

  /** Weakly ascending by key. */
  ghost predicate Ascending<T>(s: seq<T>, key: T -> string) {
    forall i, j :: 0 <= i < j < |s| ==> !Before(key(s[j]), key(s[i]))
  }

  ghost predicate KeysIdentify<T>(s: seq<T>, key: T -> string) {
    forall x, y :: x in s && y in s && key(x) == key(y) ==> x == y
  }

  /** What sort.Slice asks of its comparison. */
  ghost predicate StrictWeakOrder<T(!new)>(less: (T, T) -> bool) {
    && (forall x, y :: less(x, y) ==> !less(y, x))
    && (forall x, y, z :: less(x, z) ==> less(x, y) || less(y, z))
  }

  ghost predicate Arranged<T>(s: seq<T>, less: (T, T) -> bool) {
    forall i, j :: 0 <= i < j < |s| ==> !less(s[j], s[i])
  }

  /** sort.Slice. */
  method Sort<T(!new)>(s: seq<T>, less: (T, T) -> bool) returns (r: seq<T>)
    requires StrictWeakOrder(less)
    ensures multiset(r) == multiset(s) && Arranged(r, less)
  {
    r := [];
    for i := 0 to |s|
      invariant multiset(r) == multiset(s[..i]) && Arranged(r, less)
    {
      var j := |r|;
      while j > 0 && less(s[i], r[j - 1])
        invariant 0 <= j <= |r|
        invariant forall k :: j <= k < |r| ==> less(s[i], r[k])
      {
        j := j - 1;
      }
      InsertKeepsArranged(r, j, s[i], less);
      InsertAddsOne(r, j, s[i]);
      assert s[..i + 1] == s[..i] + [s[i]];
      r := r[..j] + [s[i]] + r[j..];
    }
    assert s[..|s|] == s;
  }

  lemma InsertAddsOne<T>(r: seq<T>, j: nat, x: T)
    requires j <= |r|
    ensures multiset(r[..j] + [x] + r[j..]) == multiset(r) + multiset{x}
  {
    assert r == r[..j] + r[j..];
  }

  lemma InsertKeepsArranged<T(!new)>(r: seq<T>, j: nat, x: T, less: (T, T) -> bool)
    requires StrictWeakOrder(less) && Arranged(r, less) && j <= |r|
    requires forall k :: j <= k < |r| ==> less(x, r[k])
    requires j > 0 ==> !less(x, r[j - 1])
    ensures Arranged(r[..j] + [x] + r[j..], less)
  {
    forall k | 0 <= k < j
      ensures !less(x, r[k])
    {
      if k < j - 1 {
        assert !less(r[j - 1], r[k]);
      }
    }
  }

  function ByKey<T>(key: T -> string): (T, T) -> bool {
    (x, y) => Before(key(x), key(y))
  }

  lemma ByKeyIsWeakOrder<T(!new)>(key: T -> string)
    ensures StrictWeakOrder(ByKey(key))
  {
    forall x, y, z
      ensures ByKey(key)(x, y) ==> !ByKey(key)(y, x)
      ensures ByKey(key)(x, z) ==> ByKey(key)(x, y) || ByKey(key)(y, z)
    {
      BeforeIsTotal(key(x), key(y));
      if Before(key(x), key(z)) && Before(key(y), key(x)) {
        BeforeIsTransitive(key(y), key(x), key(z));
      }
    }
  }

  /** sort.Slice by a string key. */
  method SortBy<T(!new)>(s: seq<T>, key: T -> string) returns (r: seq<T>)
    ensures multiset(r) == multiset(s) && Ascending(r, key)
  {
    ByKeyIsWeakOrder(key);
    r := Sort(s, ByKey(key));
    assert forall i, j :: 0 <= i < j < |r| ==> !ByKey(key)(r[j], r[i]);
  }

  /** Two sorted arrangements of the same elements are equal when equal keys mean equal elements. */
  lemma {:induction false} SortedUnique<T>(a: seq<T>, b: seq<T>, key: T -> string)
    requires multiset(a) == multiset(b) && KeysIdentify(a, key)
    requires Ascending(a, key) && Ascending(b, key)
    ensures a == b
  {
    if a == [] {
      assert |multiset(b)| == 0;
    } else {
      assert a[0] in multiset(b) && |multiset(a)| == |multiset(b)|;
      assert b[0] in multiset(a);
      HeadsAgree(a, b, key);
      hide Ascending, KeysIdentify;
      assert a == [a[0]] + a[1..] && b == [b[0]] + b[1..];
      TailsAreSorted(a, b, key);
      SortedUnique(a[1..], b[1..], key);
    }
  }

  lemma TailsAreSorted<T>(a: seq<T>, b: seq<T>, key: T -> string)
    requires a != [] && b != [] && a[0] == b[0] && multiset(a) == multiset(b)
    requires Ascending(a, key) && Ascending(b, key) && KeysIdentify(a, key)
    ensures multiset(a[1..]) == multiset(b[1..])
    ensures Ascending(a[1..], key) && Ascending(b[1..], key) && KeysIdentify(a[1..], key)
  {
    TailIsAscending(a, key);
    TailIsAscending(b, key);
    TailIdentifies(a, key);
    hide Ascending, KeysIdentify;
    assert a == [a[0]] + a[1..] && b == [b[0]] + b[1..];
    assert multiset(a[1..]) == multiset(a) - multiset{a[0]};
    assert multiset(b[1..]) == multiset(b) - multiset{a[0]};
  }

  lemma TailIsAscending<T>(a: seq<T>, key: T -> string)
    requires a != [] && Ascending(a, key)
    ensures Ascending(a[1..], key)
  {
  }

  lemma TailIdentifies<T>(a: seq<T>, key: T -> string)
    requires a != [] && KeysIdentify(a, key)
    ensures KeysIdentify(a[1..], key)
  {
    assert forall x :: x in a[1..] ==> x in a;
  }

  lemma HeadsAgree<T>(a: seq<T>, b: seq<T>, key: T -> string)
    requires a != [] && b != [] && a[0] in b && b[0] in a && KeysIdentify(a, key)
    requires Ascending(a, key) && Ascending(b, key)
    ensures a[0] == b[0]
  {
    BeforeIsTotal(key(a[0]), key(b[0]));
    var i :| 0 <= i < |b| && b[i] == a[0];
    var j :| 0 <= j < |a| && a[j] == b[0];
  }

  /** A map's values listed in ascending order of their keys. */
  ghost predicate IsListing<T>(s: seq<T>, m: map<string, T>, key: T -> string) {
    && Ascending(s, key)
    && (forall i, j :: 0 <= i < j < |s| ==> key(s[i]) != key(s[j]))
    && (forall x :: x in s ==> key(x) in m && m[key(x)] == x)
    && (forall k :: k in m ==> m[k] in s && key(m[k]) == k)
  }

  /** The values of a map are filed under their own keys. */
  ghost predicate Keyed<T>(m: map<string, T>, key: T -> string) {
    forall k :: k in m ==> key(m[k]) == k
  }

  /** Ranging over a map gives its values in any order; sorting them gives the listing. */
  method Listing<T(!new)>(m: map<string, T>, key: T -> string) returns (s: seq<T>)
    requires Keyed(m, key)
    ensures IsListing(s, m, key)
  {
    var values := [];
    var todo := m.Keys;
    while todo != {}
      invariant todo <= m.Keys
      invariant forall x :: x in values ==> key(x) in m && key(x) !in todo && m[key(x)] == x
      invariant forall k :: k in m && k !in todo ==> m[k] in values
      invariant forall i, j :: 0 <= i < j < |values| ==> key(values[i]) != key(values[j])
      decreases todo
    {
      var k :| k in todo;
      todo := todo - {k};
      values := values + [m[k]];
    }
    s := SortBy(values, key);
    assert forall x :: x in s <==> x in multiset(s);
    assert forall x :: x in values <==> x in multiset(values);
    DistinctKeysSurvive(values, s, key);
  }

  lemma DistinctKeysSurvive<T>(a: seq<T>, b: seq<T>, key: T -> string)
    requires multiset(a) == multiset(b)
    requires forall i, j :: 0 <= i < j < |a| ==> key(a[i]) != key(a[j])
    ensures forall i, j :: 0 <= i < j < |b| ==> key(b[i]) != key(b[j])
  {
    forall i, j | 0 <= i < j < |b|
      ensures key(b[i]) != key(b[j])
    {
      if key(b[i]) == key(b[j]) {
        assert b[i] in multiset(a) && b[j] in multiset(a);
        assert b[i] == b[j];
        assert b == b[..i] + [b[i]] + b[i + 1..j] + [b[j]] + b[j + 1..];
        assert multiset(b)[b[i]] >= 2;
        OnceInDistinct(a, b[i], key);
      }
    }
  }

  lemma {:induction false} OnceInDistinct<T>(a: seq<T>, x: T, key: T -> string)
    requires forall i, j :: 0 <= i < j < |a| ==> key(a[i]) != key(a[j])
    ensures multiset(a)[x] <= 1
  {
    if a != [] {
      var front, last := a[..|a| - 1], a[|a| - 1];
      assert a == front + [last];
      OnceInDistinct(front, x, key);
      if last == x {
        assert x !in front;
      }
    }
  }

  lemma {:induction false} ListingIsUnique<T>(a: seq<T>, b: seq<T>, m: map<string, T>, key: T -> string)
    requires IsListing(a, m, key) && IsListing(b, m, key)
    ensures a == b
  {
    EmptyListing(a, m, key);
    EmptyListing(b, m, key);
    if a != [] {
      ListingHeadsAgree(a, b, m, key);
      TailIsListing(a, m, key);
      TailIsListing(b, m, key);
      hide IsListing;
      ListingIsUnique(a[1..], b[1..], m - {key(a[0])}, key);
      assert a == [a[0]] + a[1..] && b == [b[0]] + b[1..];
    }
  }

  lemma ListingHeadsAgree<T>(a: seq<T>, b: seq<T>, m: map<string, T>, key: T -> string)
    requires a != [] && b != [] && IsListing(a, m, key) && IsListing(b, m, key)
    ensures a[0] == b[0]
  {
    assert m[key(a[0])] in b && m[key(b[0])] in a;
    HeadsAgree(a, b, key);
  }

  lemma EmptyListing<T>(a: seq<T>, m: map<string, T>, key: T -> string)
    requires IsListing(a, m, key)
    ensures a == [] <==> m == map[]
  {
    if a != [] {
      assert key(a[0]) in m;
    }
    if m != map[] {
      var k :| k in m;
      assert m[k] in a;
    }
  }

  lemma TailIsListing<T>(a: seq<T>, m: map<string, T>, key: T -> string)
    requires a != [] && IsListing(a, m, key)
    ensures IsListing(a[1..], m - {key(a[0])}, key)
  {
    var t := a[1..];
    forall k | k in m - {key(a[0])}
      ensures m[k] in t
    {
      assert m[k] in a;
      var i :| 0 <= i < |a| && a[i] == m[k];
      if i > 0 {
        assert t[i - 1] == m[k];
      }
    }
  }

  // ---- Sorted sets of strings -----------------------------------------------------

  ghost predicate StrictlyAscending(s: seq<string>) {
    forall i, j :: 0 <= i < j < |s| ==> Before(s[i], s[j])
  }

  ghost predicate Lists(r: seq<string>, s: set<string>) {
    StrictlyAscending(r) && forall x :: x in r <==> x in s
  }

  lemma {:induction false} ListsIsUnique(a: seq<string>, b: seq<string>, s: set<string>)
    requires Lists(a, s) && Lists(b, s)
    ensures a == b
  {
    EmptyLists(a, s);
    EmptyLists(b, s);
    if a != [] {
      assert a[0] in b && b[0] in a;
      var i :| 0 <= i < |b| && b[i] == a[0];
      var j :| 0 <= j < |a| && a[j] == b[0];
      BeforeIsTotal(a[0], b[0]);
      BeforeIsTotal(a[0], a[0]);
      var rest := s - {a[0]};
      assert Lists(a[1..], rest) by {
        RestLists(a, s);
      }
      assert Lists(b[1..], rest) by {
        RestLists(b, s);
      }
      ListsIsUnique(a[1..], b[1..], rest);
      assert a == [a[0]] + a[1..] && b == [b[0]] + b[1..];
    }
  }

  lemma RestLists(a: seq<string>, s: set<string>)
    requires Lists(a, s) && a != []
    ensures Lists(a[1..], s - {a[0]})
  {
    forall x
      ensures x in a[1..] <==> x in s - {a[0]}
    {
      BeforeIsTotal(x, x);
      assert x in a <==> x == a[0] || x in a[1..];
      if x in a[1..] {
        var i :| 0 <= i < |a[1..]| && a[1..][i] == x;
        assert Before(a[0], a[i + 1]);
      }
    }
  }

  lemma EmptyLists(a: seq<string>, s: set<string>)
    requires Lists(a, s)
    ensures a == [] <==> s == {}
  {
    if a != [] {
      assert a[0] in s;
    }
  }

  lemma {:induction false} SortedListingExists(s: set<string>) returns (r: seq<string>)
    ensures Lists(r, s)
  {
    r := [];
    if s != {} {
      var x :| x in s;
      var rest := SortedListingExists(s - {x});
      var k := 0;
      while k < |rest| && Before(rest[k], x)
        invariant 0 <= k <= |rest|
        invariant forall i :: 0 <= i < k ==> Before(rest[i], x)
      {
        k := k + 1;
      }
      InsertLists(rest, k, x, s - {x});
      assert s - {x} + {x} == s;
      r := rest[..k] + [x] + rest[k..];
    }
  }

  lemma InsertLists(rest: seq<string>, k: nat, x: string, s: set<string>)
    requires Lists(rest, s) && x !in s && k <= |rest|
    requires forall i :: 0 <= i < k ==> Before(rest[i], x)
    requires k < |rest| ==> !Before(rest[k], x)
    ensures Lists(rest[..k] + [x] + rest[k..], s + {x})
  {
    var r := rest[..k] + [x] + rest[k..];
    InsertAscends(rest, k, x);
    assert rest == rest[..k] + rest[k..];
    assert forall y :: y in rest <==> y in rest[..k] || y in rest[k..];
    assert forall y :: y in r <==> y in rest[..k] || y == x || y in rest[k..];
    hide StrictlyAscending;
  }

  lemma InsertAscends(rest: seq<string>, k: nat, x: string)
    requires StrictlyAscending(rest) && x !in rest && k <= |rest|
    requires forall i :: 0 <= i < k ==> Before(rest[i], x)
    requires k < |rest| ==> !Before(rest[k], x)
    ensures StrictlyAscending(rest[..k] + [x] + rest[k..])
  {
    if k < |rest| {
      BeforeIsTotal(rest[k], x);
      assert rest[k] in rest;
    }
    forall i | k <= i < |rest|
      ensures Before(x, rest[i])
    {
      if i > k {
        BeforeIsTransitive(x, rest[k], rest[i]);
      }
    }
    hide Before;
  }

  /** sorted({...}) and uniqueSorted: the set in byte order. */
  ghost function SortedSet(s: set<string>): (r: seq<string>)
    ensures Lists(r, s)
  {
    assert exists r :: Lists(r, s) by {
      var r := SortedListingExists(s);
    }
    var r :| Lists(r, s);
    r
  }

  /** sorted of a set: its elements come in any order. */
  method Sorted(s: set<string>) returns (r: seq<string>)
    ensures r == SortedSet(s)
  {
    var values: seq<string> := [];
    var todo := s;
    while todo != {}
      invariant todo <= s
      invariant forall x :: x in values <==> x in s && x !in todo
      invariant forall a, b :: 0 <= a < b < |values| ==> values[a] != values[b]
      decreases todo
    {
      var x :| x in todo;
      todo := todo - {x};
      values := values + [x];
    }
    r := SortBy(values, Identity);
    SortedDistinctLists(values, r);
    assert (set v | v in values) == s;
    ListsIsUnique(r, SortedSet(s), s);
  }

  /** uniqueSorted: drop empty strings and repetitions, then sort. */
  method UniqueSorted(values: seq<string>) returns (r: seq<string>)
    ensures r == SortedSet(set v | v in values && v != "")
  {
    var out: seq<string> := [];
    for i := 0 to |values|
      invariant forall x :: x in out <==> x in values[..i] && x != ""
      invariant forall a, b :: 0 <= a < b < |out| ==> out[a] != out[b]
    {
      if values[i] != "" && values[i] !in out {
        out := out + [values[i]];
      }
    }
    r := SortBy(out, Identity);
    SortedDistinctLists(out, r);
    ListsIsUnique(r, SortedSet(set v | v in values && v != ""), set v | v in values && v != "");
  }

  function Identity(s: string): string {
    s
  }

  lemma SortedDistinctLists(values: seq<string>, r: seq<string>)
    requires multiset(values) == multiset(r) && Ascending(r, Identity)
    requires forall a, b :: 0 <= a < b < |values| ==> values[a] != values[b]
    ensures Lists(r, set v | v in values)
  {
    DistinctKeysSurvive(values, r, Identity);
    forall x
      ensures x in r <==> x in values
    {
      assert x in multiset(values) <==> x in multiset(r);
    }
    forall i, j | 0 <= i < j < |r|
      ensures Before(r[i], r[j])
    {
      BeforeIsTotal(r[i], r[j]);
      assert !Before(Identity(r[j]), Identity(r[i])) && Identity(r[i]) != Identity(r[j]);
    }
  }
}
