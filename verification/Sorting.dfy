/** Library sorting and adjacent deduplication (`sort`, `sort_by`, `dedup`, `dedup_by`). */
module Sorting {

  ghost predicate Order<T(!new)>(le: (T, T) -> bool) {
    && (forall a, b :: le(a, b) || le(b, a))
    && (forall a, b, c :: le(a, b) && le(b, c) ==> le(a, c))
  }

  ghost predicate Sorted<T>(le: (T, T) -> bool, s: seq<T>) {
    forall i, j | 0 <= i < j < |s| :: le(s[i], s[j])
  }

  ghost predicate Distinct<T>(s: seq<T>) {
    forall i, j | 0 <= i < j < |s| :: s[i] != s[j]
  }

  function Insert<T>(le: (T, T) -> bool, x: T, s: seq<T>): seq<T> {
    if s == [] || !le(s[0], x) then [x] + s else [s[0]] + Insert(le, x, s[1..])
  }

  // A stable sort.
  function Sort<T>(le: (T, T) -> bool, s: seq<T>): seq<T> {
    if s == [] then [] else Insert(le, s[|s| - 1], Sort(le, s[..|s| - 1]))
  }

  // Drops every element that is the same as the one kept last.
  function Dedup<T>(same: (T, T) -> bool, s: seq<T>): (r: seq<T>)
    ensures s != [] ==> r != []
  {
    if |s| <= 1 then s
    else
      var kept := Dedup(same, s[..|s| - 1]);
      if same(s[|s| - 1], kept[|kept| - 1]) then kept else kept + [s[|s| - 1]]
  }

  lemma {:induction false} InsertKeeps<T>(le: (T, T) -> bool, x: T, s: seq<T>)
    ensures multiset(Insert(le, x, s)) == multiset(s) + multiset{x}
    ensures forall e | e in Insert(le, x, s) :: e == x || e in s
    decreases |s|
  {
    if s != [] && le(s[0], x) {
      assert s == [s[0]] + s[1..];
      InsertKeeps(le, x, s[1..]);
    }
  }

  lemma {:induction false} InsertSorted<T(!new)>(le: (T, T) -> bool, x: T, s: seq<T>)
    requires Order(le) && Sorted(le, s)
    ensures Sorted(le, Insert(le, x, s))
    decreases |s|
  {
    if s != [] && le(s[0], x) {
      InsertSorted(le, x, s[1..]);
      InsertKeeps(le, x, s[1..]);
      forall e | e in Insert(le, x, s[1..]) ensures le(s[0], e) {
        if e != x {
          var k :| 0 < k < |s| && s[k] == e;
        }
      }
    }
  }

  lemma {:induction false} SortSorts<T(!new)>(le: (T, T) -> bool, s: seq<T>)
    requires Order(le)
    ensures Sorted(le, Sort(le, s)) && multiset(Sort(le, s)) == multiset(s)
    decreases |s|
  {
    if s != [] {
      var init := s[..|s| - 1];
      assert s == init + [s[|s| - 1]];
      SortSorts(le, init);
      InsertSorted(le, s[|s| - 1], Sort(le, init));
      InsertKeeps(le, s[|s| - 1], Sort(le, init));
    }
  }

  lemma Append<T>(le: (T, T) -> bool, s: seq<T>, x: T)
    requires Sorted(le, s) && Distinct(s) && s != [] && s[|s| - 1] != x
    requires forall a | a in s :: le(a, x)
    requires forall a, b | a in s && b in s :: le(a, b) && le(b, a) ==> a == b
    ensures Sorted(le, s + [x]) && Distinct(s + [x])
  {
    var top := s[|s| - 1];
    forall j | 0 <= j < |s| ensures s[j] != x {
      assert j < |s| - 1 ==> le(s[j], top) && s[j] != top;
    }
  }

  // On a sorted sequence removing adjacent duplicates removes all of them, and nothing else.
  lemma {:induction false} DedupSorted<T>(le: (T, T) -> bool, same: (T, T) -> bool, s: seq<T>)
    requires Sorted(le, s)
    requires forall a, b | a in s && b in s :: same(a, b) <==> a == b
    requires forall a, b | a in s && b in s :: le(a, b) && le(b, a) ==> a == b
    ensures var r := Dedup(same, s);
            && Sorted(le, r) && Distinct(r)
            && (forall x | x in r :: x in s) && (forall x | x in s :: x in r)
            && (s != [] ==> r[|r| - 1] == s[|s| - 1])
    decreases |s|
  {
    if |s| > 1 {
      var last := s[|s| - 1];
      var init := s[..|s| - 1];
      DedupSorted(le, same, init);
      var kept := Dedup(same, init);
      assert s == init + [last];
      forall x | x in kept ensures le(x, last) {
        var i :| 0 <= i < |init| && init[i] == x;
        assert le(s[i], s[|s| - 1]);
      }
      if !same(last, kept[|kept| - 1]) {
        assert kept[|kept| - 1] in s && last in s;
        Append(le, kept, last);
      }
    }
  }

  // ------------------------------------------------------------ strings

  predicate LexLe(a: string, b: string) {
    a == "" || (b != "" && (a[0] < b[0] || (a[0] == b[0] && LexLe(a[1..], b[1..]))))
  }

  lemma {:induction false} LexTotal(a: string, b: string)
    ensures LexLe(a, b) || LexLe(b, a)
    ensures LexLe(a, b) && LexLe(b, a) ==> a == b
  {
    if a != "" && b != "" {
      LexTotal(a[1..], b[1..]);
      assert a == [a[0]] + a[1..] && b == [b[0]] + b[1..];
    }
  }

  lemma {:induction false} LexTransitive(a: string, b: string, c: string)
    requires LexLe(a, b) && LexLe(b, c)
    ensures LexLe(a, c)
  {
    if a != "" && a[0] == b[0] == c[0] {
      LexTransitive(a[1..], b[1..], c[1..]);
    }
  }

  lemma LexOrder()
    ensures Order(LexLe)
    ensures forall a, b :: LexLe(a, b) && LexLe(b, a) ==> a == b
  {
    forall a, b ensures LexLe(a, b) || LexLe(b, a) ensures LexLe(a, b) && LexLe(b, a) ==> a == b {
      LexTotal(a, b);
    }
    forall a, b, c | LexLe(a, b) && LexLe(b, c) ensures LexLe(a, c) {
      LexTransitive(a, b, c);
    }
  }

  // They agree before position k, where `a` ends or has the smaller character.
  ghost predicate BeforeAt(a: string, b: string, k: nat) {
    k <= |a| && k < |b| && a[..k] == b[..k] && (k == |a| || a[k] < b[k])
  }

  // The first difference decides, and a proper prefix comes first.
  ghost predicate Before(a: string, b: string) {
    exists k: nat :: BeforeAt(a, b, k)
  }

  lemma BeforeAtNext(a: string, b: string, k: nat)
    requires a != "" && b != ""
    ensures BeforeAt(a, b, k + 1) <==> a[0] == b[0] && BeforeAt(a[1..], b[1..], k)
  {
    if k < |a| && k < |b| {
      assert a[..k + 1] == [a[0]] + a[1..][..k] && b[..k + 1] == [b[0]] + b[1..][..k];
    }
  }

  lemma {:induction false} LexLeIff(a: string, b: string)
    ensures LexLe(a, b) <==> a == b || Before(a, b)
  {
    if a == "" || b == "" {
      assert a == "" && b != "" ==> BeforeAt(a, b, 0);
    } else {
      LexLeIff(a[1..], b[1..]);
      assert a == [a[0]] + a[1..] && b == [b[0]] + b[1..];
      assert BeforeAt(a, b, 0) <==> a[0] < b[0];
      forall k: nat | a[0] == b[0] && BeforeAt(a[1..], b[1..], k) ensures Before(a, b) {
        BeforeAtNext(a, b, k);
        assert BeforeAt(a, b, k + 1);
      }
      forall k: nat | BeforeAt(a, b, k) && k > 0 ensures a[0] == b[0] && Before(a[1..], b[1..]) {
        BeforeAtNext(a, b, k - 1);
        assert BeforeAt(a[1..], b[1..], k - 1);
      }
    }
  }

  // `tags.sort(); tags.dedup()`
  function SortedSet(tags: seq<string>): seq<string> {
    Dedup((a: string, b: string) => a == b, Sort(LexLe, tags))
  }

  lemma SortedSetIs(tags: seq<string>)
    ensures Distinct(SortedSet(tags)) && Sorted(LexLe, SortedSet(tags))
    ensures forall i, j | 0 <= i < j < |SortedSet(tags)| :: Before(SortedSet(tags)[i], SortedSet(tags)[j])
    ensures forall t :: t in SortedSet(tags) <==> t in tags
  {
    LexOrder();
    SortSorts(LexLe, tags);
    var s := Sort(LexLe, tags);
    forall t ensures t in s <==> t in tags {
      assert t in s <==> t in multiset(s);
      assert t in tags <==> t in multiset(tags);
    }
    DedupSorted(LexLe, (a: string, b: string) => a == b, s);
    forall i, j | 0 <= i < j < |SortedSet(tags)| ensures Before(SortedSet(tags)[i], SortedSet(tags)[j]) {
      LexLeIff(SortedSet(tags)[i], SortedSet(tags)[j]);
    }
  }
}
