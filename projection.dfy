/** The list's projection of the stored roster (`filteredUsers` in
    src/enteties/UserList/ui/UserList.tsx): a case-insensitive name search
    followed by a stable sort on one of three string keys, ascending or
    descending. The sort works on a copy, so the input is a value here and
    is never changed. */
module Projection {
  import opened Roster
  import opened Text
  import opened Seqs
  import opened Calendar

  datatype SortField = FullName | Gender | BirthDate
  datatype Order = Asc | Desc

  /** The string the comparator reads for a field. */
  function Key(u: User, f: SortField): string
  {
    match f
    case FullName => u.name
    case Gender => u.gender
    case BirthDate => u.birthDate
  }

  // ---------------------------------------------------------------------
  // The comparator
  // ---------------------------------------------------------------------

  /** The comparator given to `sort`: negative when `a` goes first, positive
      when `b` goes first, zero on equal keys (the direction only swaps the
      signs). */
  function Compare(a: User, b: User, f: SortField, o: Order): (r: int)
    ensures r == -1 || r == 0 || r == 1
    ensures r == 0 <==> Key(a, f) == Key(b, f)
  {
    var x, y := Key(a, f), Key(b, f);
    LtIrreflexive(x);
    LtTrichotomy(x, y);
    if Lt(x, y) then (if o == Asc then -1 else 1)
    else if Lt(y, x) then (if o == Asc then 1 else -1)
    else 0
  }

  /** `x` may stand before `y` in a list sorted in direction `o`. */
  predicate KeyLe(x: string, y: string, o: Order)
  {
    if o == Asc then !Lt(y, x) else !Lt(x, y)
  }

  /** The comparator is consistent: swapping its arguments negates it, and
      it lets `a` go first exactly when `a`'s key may precede `b`'s. */
  lemma CompareConsistent(a: User, b: User, f: SortField, o: Order)
    ensures Compare(a, b, f, o) == -Compare(b, a, f, o)
    ensures Compare(a, b, f, o) <= 0 <==> KeyLe(Key(a, f), Key(b, f), o)
  {
    var x, y := Key(a, f), Key(b, f);
    if Lt(x, y) {
      LtAsymmetric(x, y);
    }
    if Lt(y, x) {
      LtAsymmetric(y, x);
    }
  }

  lemma KeyLeReflexive(x: string, o: Order)
    ensures KeyLe(x, x, o)
  {
    LtIrreflexive(x);
  }

  lemma KeyLeTotal(x: string, y: string, o: Order)
    ensures KeyLe(x, y, o) || KeyLe(y, x, o)
  {
    if Lt(x, y) {
      LtAsymmetric(x, y);
    }
  }

  lemma KeyLeTransitive(x: string, y: string, z: string, o: Order)
    requires KeyLe(x, y, o) && KeyLe(y, z, o)
    ensures KeyLe(x, z, o)
  {
    LtTrichotomy(x, y);
    LtTrichotomy(y, z);
    if o == Asc && Lt(z, x) {
      if Lt(x, y) {
        LtTransitive(z, x, y);
      }
    } else if o == Desc && Lt(x, z) {
      if Lt(y, x) {
        LtTransitive(y, x, z);
      }
    }
  }

  lemma KeyLeAntisymmetric(x: string, y: string, o: Order)
    requires KeyLe(x, y, o) && KeyLe(y, x, o)
    ensures x == y
  {
    LtTrichotomy(x, y);
  }

  // ---------------------------------------------------------------------
  // Stable sort with the comparator
  // ---------------------------------------------------------------------

  /** Inserts `x` in front of the first element it may precede. */
  function Insert(x: User, t: seq<User>, f: SortField, o: Order): (r: seq<User>)
    ensures multiset(r) == multiset(t) + multiset{x}
    decreases |t|
  {
    if t == [] then [x]
    else if Compare(x, t[0], f, o) <= 0 then [x] + t
    else
      assert t == [t[0]] + t[1..];
      [t[0]] + Insert(x, t[1..], f, o)
  }

  /** `[...s].sort(comparator)`: a stable sort, here insertion sort. Any
      stable sort gives the same result (see SortIsUnique). */
  function SortBy(s: seq<User>, f: SortField, o: Order): (r: seq<User>)
    ensures multiset(r) == multiset(s)
    decreases |s|
  {
    if s == [] then []
    else
      assert s == [s[0]] + s[1..];
      Insert(s[0], SortBy(s[1..], f, o), f, o)
  }

  /** Ascending: keys never decrease; descending: keys never increase. */
  ghost predicate SortedBy(r: seq<User>, f: SortField, o: Order)
  {
    forall i, j :: 0 <= i < j < |r| ==> KeyLe(Key(r[i], f), Key(r[j], f), o)
  }

  /** The test "has key `k` in field `f`". */
  function HasKey(f: SortField, k: string): User -> bool
  {
    (u: User) => Key(u, f) == k
  }

  /** The records whose key is `k`, in their order. */
  function WithKey(s: seq<User>, f: SortField, k: string): seq<User>
  {
    Filter(s, HasKey(f, k))
  }

  lemma WithKeyCons(s: seq<User>, f: SortField, k: string)
    requires s != []
    ensures WithKey(s, f, k) == (if Key(s[0], f) == k then [s[0]] else []) + WithKey(s[1..], f, k)
  {
  }

  lemma WithKeyMembership(s: seq<User>, f: SortField, k: string, x: User)
    ensures x in WithKey(s, f, k) <==> x in s && Key(x, f) == k
  {
    FilterMembership(s, HasKey(f, k), x);
  }

  lemma {:induction false} InsertSorted(x: User, t: seq<User>, f: SortField, o: Order)
    requires SortedBy(t, f, o)
    ensures SortedBy(Insert(x, t, f, o), f, o)
    decreases |t|
  {
    if t == [] {
    } else if Compare(x, t[0], f, o) <= 0 {
      CompareConsistent(x, t[0], f, o);
      var r := Insert(x, t, f, o);
      forall i, j | 0 <= i < j < |r| ensures KeyLe(Key(r[i], f), Key(r[j], f), o) {
        if i == 0 && j > 1 {
          KeyLeTransitive(Key(x, f), Key(t[0], f), Key(t[j - 1], f), o);
        }
      }
    } else {
      CompareConsistent(x, t[0], f, o);
      KeyLeTotal(Key(x, f), Key(t[0], f), o);
      InsertSorted(x, t[1..], f, o);
      var rest := Insert(x, t[1..], f, o);
      var r := Insert(x, t, f, o);
      assert r == [t[0]] + rest;
      HeadBoundsInsert(x, t, f, o);
      forall i, j | 0 <= i < j < |r| ensures KeyLe(Key(r[i], f), Key(r[j], f), o) {
        if i > 0 {
          assert r[i] == rest[i - 1] && r[j] == rest[j - 1];
        } else {
          assert r[j] == rest[j - 1];
        }
      }
    }
  }

  /** The head of a sorted list may precede everything inserting `x` into
      its tail gives, when it may precede `x`. */
  lemma HeadBoundsInsert(x: User, t: seq<User>, f: SortField, o: Order)
    requires SortedBy(t, f, o) && t != []
    requires KeyLe(Key(t[0], f), Key(x, f), o)
    ensures forall j :: 0 <= j < |Insert(x, t[1..], f, o)| ==>
              KeyLe(Key(t[0], f), Key(Insert(x, t[1..], f, o)[j], f), o)
  {
    var rest := Insert(x, t[1..], f, o);
    forall j | 0 <= j < |rest| ensures KeyLe(Key(t[0], f), Key(rest[j], f), o) {
      assert rest[j] in multiset(rest);
      if rest[j] != x {
        var m :| 1 <= m < |t| && t[m] == rest[j];
      }
    }
  }

  lemma {:induction false} SortSorted(s: seq<User>, f: SortField, o: Order)
    ensures SortedBy(SortBy(s, f, o), f, o)
    decreases |s|
  {
    if s != [] {
      SortSorted(s[1..], f, o);
      InsertSorted(s[0], SortBy(s[1..], f, o), f, o);
    }
  }

  /** `[x]` if `x` has key `k`, else `[]`. */
  function OneWithKey(x: User, f: SortField, k: string): seq<User>
  {
    if Key(x, f) == k then [x] else []
  }

  /** Inserting keeps every key class in order: `x` lands before every
      record that shares its key. */
  lemma {:induction false} InsertStable(x: User, t: seq<User>, f: SortField, o: Order, k: string)
    ensures WithKey(Insert(x, t, f, o), f, k) == OneWithKey(x, f, k) + WithKey(t, f, k)
    decreases |t|
  {
    if t == [] {
      WithKeyCons([x], f, k);
      assert [x][1..] == [];
    } else if Compare(x, t[0], f, o) <= 0 {
      WithKeyCons([x] + t, f, k);
      assert ([x] + t)[1..] == t;
    } else {
      var rest := Insert(x, t[1..], f, o);
      assert Insert(x, t, f, o) == [t[0]] + rest;
      InsertStable(x, t[1..], f, o, k);
      assert t == [t[0]] + t[1..];
      PassDifferentKey(x, t[0], rest, t[1..], f, k);
    }
  }

  /** Moving `x` past a record with a different key leaves every key
      class as it was. */
  lemma PassDifferentKey(x: User, y: User, rest: seq<User>, t: seq<User>, f: SortField, k: string)
    requires Key(x, f) != Key(y, f)
    requires WithKey(rest, f, k) == OneWithKey(x, f, k) + WithKey(t, f, k)
    ensures WithKey([y] + rest, f, k) == OneWithKey(x, f, k) + WithKey([y] + t, f, k)
  {
    WithKeyCons([y] + rest, f, k);
    WithKeyCons([y] + t, f, k);
    assert ([y] + rest)[1..] == rest && ([y] + t)[1..] == t;
    var tail := WithKey(t, f, k);
    if Key(x, f) == k {
      assert WithKey([y] + rest, f, k) == [] + ([x] + tail);
    } else {
      assert WithKey([y] + rest, f, k) == OneWithKey(y, f, k) + ([] + tail);
    }
  }

  /** The sort is stable: records with equal keys keep their input order,
      in either direction. */
  lemma {:induction false} SortStable(s: seq<User>, f: SortField, o: Order, k: string)
    ensures WithKey(SortBy(s, f, o), f, k) == WithKey(s, f, k)
    decreases |s|
  {
    if s != [] {
      var rest := SortBy(s[1..], f, o);
      SortStable(s[1..], f, o, k);
      InsertStable(s[0], rest, f, o, k);
      WithKeyCons(s, f, k);
    }
  }

  lemma SortedHeadFirst(r: seq<User>, f: SortField, o: Order, x: User)
    requires SortedBy(r, f, o) && r != [] && x in r
    ensures KeyLe(Key(r[0], f), Key(x, f), o)
  {
    var j :| 0 <= j < |r| && r[j] == x;
    if j == 0 {
      KeyLeReflexive(Key(x, f), o);
    }
  }

  /** Two sorted lists with the same key classes are the same list. */
  lemma {:induction false} SortedStableUnique(r1: seq<User>, r2: seq<User>, f: SortField, o: Order)
    requires SortedBy(r1, f, o) && SortedBy(r2, f, o)
    requires forall k :: WithKey(r1, f, k) == WithKey(r2, f, k)
    ensures r1 == r2
    decreases |r1|
  {
    if r1 != [] {
      WithKeyMembership(r1, f, Key(r1[0], f), r1[0]);
      WithKeyMembership(r2, f, Key(r1[0], f), r1[0]);
    }
    if r2 != [] {
      WithKeyMembership(r2, f, Key(r2[0], f), r2[0]);
      WithKeyMembership(r1, f, Key(r2[0], f), r2[0]);
    }
    if r1 != [] && r2 != [] {
      var k1, k2 := Key(r1[0], f), Key(r2[0], f);
      SortedHeadFirst(r1, f, o, r2[0]);
      SortedHeadFirst(r2, f, o, r1[0]);
      KeyLeAntisymmetric(k1, k2, o);
      WithKeyCons(r1, f, k1);
      WithKeyCons(r2, f, k1);
      assert r1[0] == WithKey(r1, f, k1)[0] == WithKey(r2, f, k1)[0] == r2[0];
      forall k ensures WithKey(r1[1..], f, k) == WithKey(r2[1..], f, k) {
        WithKeyCons(r1, f, k);
        WithKeyCons(r2, f, k);
        var h := if Key(r1[0], f) == k then [r1[0]] else [];
        assert WithKey(r1, f, k) == h + WithKey(r1[1..], f, k);
        assert WithKey(r2, f, k) == h + WithKey(r2[1..], f, k);
        assert WithKey(r1[1..], f, k) == WithKey(r1, f, k)[|h|..];
        assert WithKey(r2[1..], f, k) == WithKey(r2, f, k)[|h|..];
      }
      SortedStableUnique(r1[1..], r2[1..], f, o);
      assert r1 == [r1[0]] + r1[1..] && r2 == [r2[0]] + r2[1..];
    }
  }

  /** Any stable sort of `s` by the comparator is SortBy(s): sorted output
      and unchanged key classes pin the result down, so modelling the
      engine's sort by insertion sort loses nothing. */
  lemma SortIsUnique(s: seq<User>, r: seq<User>, f: SortField, o: Order)
    requires SortedBy(r, f, o)
    requires forall k :: WithKey(r, f, k) == WithKey(s, f, k)
    ensures r == SortBy(s, f, o)
  {
    SortSorted(s, f, o);
    forall k ensures WithKey(r, f, k) == WithKey(SortBy(s, f, o), f, k) {
      SortStable(s, f, o, k);
    }
    SortedStableUnique(r, SortBy(s, f, o), f, o);
  }

  // ---------------------------------------------------------------------
  // Search and the projection
  // ---------------------------------------------------------------------

  /** `u.name.toLowerCase().includes(term.toLowerCase())` */
  function NameMatches(term: string): User -> bool
  {
    (u: User) => Includes(Lower(u.name), Lower(term))
  }

  /** The search step: no filtering when the trimmed search is empty. */
  function FilterByName(users: seq<User>, search: string): (r: seq<User>)
    ensures |r| <= |users|
    ensures forall u :: u in r ==> u in users
  {
    var term := Trim(search);
    if term == [] then users else Filter(users, NameMatches(term))
  }

  /** `filteredUsers`: search, then a stable sort of a copy. The rows are
      the searched records rearranged, so each comes from `users`. */
  function Project(users: seq<User>, search: string, f: SortField, o: Order): (r: seq<User>)
    ensures multiset(r) == multiset(FilterByName(users, search))
    ensures forall u :: u in r ==> u in users
  {
    var s := FilterByName(users, search);
    SameMembers(SortBy(s, f, o), s);
    SortBy(s, f, o)
  }

  /** Sequences with the same multiset have the same members. */
  lemma SameMembers(a: seq<User>, b: seq<User>)
    requires multiset(a) == multiset(b)
    ensures forall u :: u in a <==> u in b
  {
    forall u ensures u in a <==> u in b {
      assert u in a <==> u in multiset(a);
      assert u in b <==> u in multiset(b);
    }
  }

  /** An empty or whitespace-only search filters nothing out. */
  lemma BlankSearchKeepsEveryone(users: seq<User>, search: string, f: SortField, o: Order)
    requires AllWhitespace(search)
    ensures FilterByName(users, search) == users
    ensures multiset(Project(users, search, f, o)) == multiset(users)
  {
    TrimEmptyIff(search);
  }

  /** Otherwise a record is kept exactly when its lower-cased name contains
      the lower-cased trimmed search as a substring. */
  lemma SearchKeepsExactlyMatches(users: seq<User>, search: string, u: User)
    requires !AllWhitespace(search)
    ensures u in FilterByName(users, search) <==>
              u in users && exists i :: OccursAt(Lower(u.name), Lower(Trim(search)), i)
  {
    TrimEmptyIff(search);
    FilterMembership(users, NameMatches(Trim(search)), u);
    IncludesIff(Lower(u.name), Lower(Trim(search)));
  }

  /** The search ignores case: trimmed searches that differ only in the
      case of their letters keep the same records. */
  lemma SearchIgnoresCase(users: seq<User>, search1: string, search2: string)
    requires SameUpToCase(Trim(search1), Trim(search2))
    ensures FilterByName(users, search1) == FilterByName(users, search2)
  {
    var t1, t2 := Trim(search1), Trim(search2);
    if t1 != [] {
      LowerIgnoresCase(t1, t2);
      FilterSameTest(users, NameMatches(t1), NameMatches(t2));
    }
  }

  /** Whether a record is kept does not depend on the case of its name. */
  lemma NameMatchIgnoresCase(term: string, u: User, v: User)
    requires SameUpToCase(u.name, v.name)
    ensures NameMatches(term)(u) == NameMatches(term)(v)
  {
    LowerIgnoresCase(u.name, v.name);
  }

  /** The search keeps the relative order of the records it keeps. */
  lemma SearchKeepsOrder(a: seq<User>, b: seq<User>, search: string)
    ensures FilterByName(a + b, search) == FilterByName(a, search) + FilterByName(b, search)
  {
    if Trim(search) != [] {
      FilterAppend(a, b, NameMatches(Trim(search)));
    }
  }

  /** The projection is a permutation of the searched records, sorted
      by the selected key in the selected direction, and stable. */
  lemma ProjectSpec(users: seq<User>, search: string, f: SortField, o: Order)
    ensures var r := Project(users, search, f, o);
      && multiset(r) == multiset(FilterByName(users, search))
      && (o == Asc ==> forall i, j :: 0 <= i < j < |r| ==> !Lt(Key(r[j], f), Key(r[i], f)))
      && (o == Desc ==> forall i, j :: 0 <= i < j < |r| ==> !Lt(Key(r[i], f), Key(r[j], f)))
      && forall k :: WithKey(r, f, k) == WithKey(FilterByName(users, search), f, k)
  {
    var s := FilterByName(users, search);
    SortSorted(s, f, o);
    forall k ensures WithKey(SortBy(s, f, o), f, k) == WithKey(s, f, k) {
      SortStable(s, f, o, k);
    }
  }

  /** Because ties keep input order in both directions, descending is not
      the reverse of ascending: two records with the same name come out in
      input order either way. */
  lemma DescendingIsNotReversedAscending(a: User, b: User)
    requires a != b && a.name == b.name
    ensures Project([a, b], "", FullName, Asc) == [a, b]
    ensures Project([a, b], "", FullName, Desc) == [a, b]
  {
    assert [a, b][1..] == [b];
    assert SortBy([b], FullName, Asc) == [b];
    assert SortBy([b], FullName, Desc) == [b];
  }

  /** Two zero-padded two-digit numbers compare as strings like the
      numbers they spell. */
  lemma Pad2Order(m: int, n: int)
    requires 0 <= m < 100 && 0 <= n < 100
    ensures Lt(Pad2(m), Pad2(n)) <==> m < n
  {
    var s, t := Pad2(m), Pad2(n);
    if s[0] == t[0] {
      assert s == [s[0]] + [s[1]] && t == [t[0]] + [t[1]];
      LtCommonPrefix([s[0]], [s[1]], [t[1]]);
    } else {
      LtFirstDifference([s[0]], [t[0]], [s[1]], [t[1]]);
      assert s == [s[0]] + [s[1]] && t == [t[0]] + [t[1]];
    }
  }

  /** A two-digit prefix decides the order unless it is the same on both
      sides, in which case the rest does. */
  lemma Pad2Prefix(m: int, n: int, u: string, v: string)
    requires 0 <= m < 100 && 0 <= n < 100
    ensures Lt(Pad2(m) + u, Pad2(n) + v) <==> m < n || (m == n && Lt(u, v))
  {
    if m == n {
      LtCommonPrefix(Pad2(m), u, v);
    } else {
      Pad2Value(m);
      Pad2Value(n);
      LtFirstDifference(Pad2(m), Pad2(n), u, v);
      Pad2Order(m, n);
    }
  }

  /** The birth-date key as the picker stores it sorts chronologically:
      one `YYYY-MM-DD` string is smaller than another exactly when it names
      the earlier day. */
  lemma BirthDateKeyIsChronological(a: Date, b: Date)
    requires ValidDate(a) && 0 <= a.year <= 9999
    requires ValidDate(b) && 0 <= b.year <= 9999
    ensures Lt(FormatIso(a), FormatIso(b)) <==> Before(a, b)
  {
    var da, db := "-" + Pad2(a.day), "-" + Pad2(b.day);
    var ma, mb := "-" + (Pad2(a.month) + da), "-" + (Pad2(b.month) + db);
    assert FormatIso(a) == Pad2(a.year / 100) + (Pad2(a.year % 100) + ma);
    assert FormatIso(b) == Pad2(b.year / 100) + (Pad2(b.year % 100) + mb);
    Pad2Prefix(a.year / 100, b.year / 100, Pad2(a.year % 100) + ma, Pad2(b.year % 100) + mb);
    Pad2Prefix(a.year % 100, b.year % 100, ma, mb);
    LtCommonPrefix("-", Pad2(a.month) + da, Pad2(b.month) + db);
    Pad2Prefix(a.month, b.month, da, db);
    LtCommonPrefix("-", Pad2(a.day), Pad2(b.day));
    Pad2Order(a.day, b.day);
  }
}
