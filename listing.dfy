/** The order of the complaint listing: `sorted(complaints, key=created_at or "",
    reverse=True)`. Python's sort is stable also when reversed, so complaints with the
    same key keep the order they have in the file. The sort is written here as an
    insertion sort; `StableSortIsUnique` shows that every stable descending sort
    gives the same list, so the choice of algorithm does not matter. */
module Listing {
  import opened Text
  import opened Records

  /** Newest first: the `created_at` keys never increase along the list. */
  ghost predicate SortedDesc(s: seq<Complaint>) {
    forall i, j :: 0 <= i < j < |s| ==> LexLe(CreatedKey(s[j]), CreatedKey(s[i]))
  }

  /** The complaints of `s` whose key is `k`, in their order in `s`. */
  function WithKey(s: seq<Complaint>, k: string): (r: seq<Complaint>)
    ensures |r| <= |s|
    ensures forall i :: 0 <= i < |r| ==> CreatedKey(r[i]) == k
  {
    if s == [] then []
    else if CreatedKey(s[0]) == k then [s[0]] + WithKey(s[1..], k)
    else WithKey(s[1..], k)
  }

  /** Puts `x` in front of the first complaint whose key is not greater than its own,
      so that `x` stays ahead of every complaint with an equal key. */
  function Insert(x: Complaint, s: seq<Complaint>): (r: seq<Complaint>)
    ensures multiset(r) == multiset(s) + multiset{x}
  {
    if s == [] || LexLe(CreatedKey(s[0]), CreatedKey(x)) then [x] + s
    else
      assert s == [s[0]] + s[1..];
      [s[0]] + Insert(x, s[1..])
  }

  /** The listing order of `list_complaints`. */
  function SortByCreatedDesc(s: seq<Complaint>): (r: seq<Complaint>)
  {
    if s == [] then [] else Insert(s[0], SortByCreatedDesc(s[1..]))
  }

  lemma {:induction false} SortIsPermutation(s: seq<Complaint>)
    ensures multiset(SortByCreatedDesc(s)) == multiset(s)
  {
    if s != [] {
      SortIsPermutation(s[1..]);
      assert s == [s[0]] + s[1..];
    }
  }

  /** Every key of `Insert(x, s)` is the key of `x` or a key of `s`. */
  lemma {:induction false} InsertKeys(x: Complaint, s: seq<Complaint>, i: int)
    requires 0 <= i < |Insert(x, s)|
    ensures CreatedKey(Insert(x, s)[i]) == CreatedKey(x)
         || exists j :: 0 <= j < |s| && CreatedKey(Insert(x, s)[i]) == CreatedKey(s[j])
  {
    var r := Insert(x, s);
    if s == [] || LexLe(CreatedKey(s[0]), CreatedKey(x)) {
      if i > 0 { assert r[i] == s[i - 1]; }
    } else if i > 0 {
      InsertKeys(x, s[1..], i - 1);
      if CreatedKey(r[i]) != CreatedKey(x) {
        var j :| 0 <= j < |s[1..]| && CreatedKey(Insert(x, s[1..])[i - 1]) == CreatedKey(s[1..][j]);
        assert CreatedKey(r[i]) == CreatedKey(s[j + 1]);
      }
    }
  }

  lemma {:induction false} InsertSorted(x: Complaint, s: seq<Complaint>)
    requires SortedDesc(s)
    ensures SortedDesc(Insert(x, s))
  {
    if s == [] || LexLe(CreatedKey(s[0]), CreatedKey(x)) {
      var r := [x] + s;
      forall i, j | 0 <= i < j < |r| ensures LexLe(CreatedKey(r[j]), CreatedKey(r[i])) {
        if i == 0 && j > 1 {
          LexLeTransitive(CreatedKey(s[j - 1]), CreatedKey(s[0]), CreatedKey(x));
        }
      }
    } else {
      LexLeTotal(CreatedKey(s[0]), CreatedKey(x));
      InsertSorted(x, s[1..]);
      var t := Insert(x, s[1..]);
      var r := [s[0]] + t;
      forall i, j | 0 <= i < j < |r| ensures LexLe(CreatedKey(r[j]), CreatedKey(r[i])) {
        if i == 0 {
          InsertKeys(x, s[1..], j - 1);
          if CreatedKey(t[j - 1]) != CreatedKey(x) {
            var k :| 0 <= k < |s[1..]| && CreatedKey(t[j - 1]) == CreatedKey(s[1..][k]);
            assert CreatedKey(t[j - 1]) == CreatedKey(s[k + 1]);
          }
        }
      }
    }
  }

  lemma {:induction false} SortIsSorted(s: seq<Complaint>)
    ensures SortedDesc(SortByCreatedDesc(s))
  {
    if s != [] {
      SortIsSorted(s[1..]);
      InsertSorted(s[0], SortByCreatedDesc(s[1..]));
    }
  }

  /** Inserting `x` puts it ahead of every complaint with the same key. */
  lemma {:induction false} InsertWithKey(x: Complaint, s: seq<Complaint>, k: string)
    ensures WithKey(Insert(x, s), k) == if CreatedKey(x) == k then [x] + WithKey(s, k) else WithKey(s, k)
  {
    if s == [] || LexLe(CreatedKey(s[0]), CreatedKey(x)) {
      assert ([x] + s)[1..] == s;
    } else {
      InsertWithKey(x, s[1..], k);
      assert ([s[0]] + Insert(x, s[1..]))[1..] == Insert(x, s[1..]);
      if CreatedKey(x) == k {
        LexLeReflexive(k);
        assert CreatedKey(s[0]) != k;
      }
    }
  }

  /** Stability: the complaints sharing a key keep their relative order. */
  lemma {:induction false} SortIsStable(s: seq<Complaint>, k: string)
    ensures WithKey(SortByCreatedDesc(s), k) == WithKey(s, k)
  {
    if s != [] {
      SortIsStable(s[1..], k);
      InsertWithKey(s[0], SortByCreatedDesc(s[1..]), k);
    }
  }

  /** A sorted list starts with one of its greatest keys. */
  lemma HeadKeyIsGreatest(r: seq<Complaint>, i: int)
    requires SortedDesc(r) && 0 <= i < |r|
    ensures LexLe(CreatedKey(r[i]), CreatedKey(r[0]))
  {
    if i == 0 { LexLeReflexive(CreatedKey(r[0])); }
  }

  /** When some complaint of `r` has key `k`, `WithKey(r, k)` is not empty. */
  lemma {:induction false} WithKeyNonEmpty(r: seq<Complaint>, i: int)
    requires 0 <= i < |r|
    ensures WithKey(r, CreatedKey(r[i])) != []
  {
    if i > 0 && CreatedKey(r[0]) != CreatedKey(r[i]) {
      WithKeyNonEmpty(r[1..], i - 1);
    }
  }

  /** Two lists sorted newest first that agree on the complaints of every key are
      equal: a stable descending sort has only one possible result. */
  lemma {:induction false} SortedUnique(r1: seq<Complaint>, r2: seq<Complaint>)
    requires SortedDesc(r1) && SortedDesc(r2)
    requires forall k :: WithKey(r1, k) == WithKey(r2, k)
    ensures r1 == r2
  {
    if r1 == [] || r2 == [] {
      if r1 != [] { WithKeyNonEmpty(r1, 0); assert false; }
      if r2 != [] { WithKeyNonEmpty(r2, 0); assert false; }
    } else {
      var x, y := r1[0], r2[0];
      // Some complaint of r2 has x's key, so y's key is at least x's; and back.
      assert WithKey(r1, CreatedKey(x))[0] == x;
      var j := KeyIndex(r2, CreatedKey(x));
      HeadKeyIsGreatest(r2, j);
      var j' := KeyIndex(r1, CreatedKey(y)) by {
        WithKeyNonEmpty(r2, 0);
      }
      HeadKeyIsGreatest(r1, j');
      LexLeAntisymmetric(CreatedKey(x), CreatedKey(y));
      assert x == y;
      forall k ensures WithKey(r1[1..], k) == WithKey(r2[1..], k) {
        assert WithKey(r1, k) == WithKey(r2, k);
        if CreatedKey(x) == k {
          assert WithKey(r1, k) == [x] + WithKey(r1[1..], k);
          assert WithKey(r2, k) == [x] + WithKey(r2[1..], k);
          assert WithKey(r1[1..], k) == WithKey(r1, k)[1..];
        }
      }
      SortedUnique(r1[1..], r2[1..]);
      assert r1 == [x] + r1[1..] && r2 == [y] + r2[1..];
    }
  }

  /** A position in `r` holding key `k`, when `WithKey(r, k)` is not empty. */
  lemma {:induction false} KeyIndex(r: seq<Complaint>, k: string) returns (i: int)
    requires WithKey(r, k) != []
    ensures 0 <= i < |r| && CreatedKey(r[i]) == k
  {
    if CreatedKey(r[0]) == k {
      i := 0;
    } else {
      i := KeyIndex(r[1..], k);
      i := i + 1;
    }
  }

  /** Any list that is sorted newest first and keeps the order of equal keys is the
      listing: Python's stable `sorted(..., reverse=True)` returns exactly this. */
  lemma StableSortIsUnique(s: seq<Complaint>, r: seq<Complaint>)
    requires SortedDesc(r)
    requires forall k :: WithKey(r, k) == WithKey(s, k)
    ensures r == SortByCreatedDesc(s)
  {
    SortIsSorted(s);
    forall k ensures WithKey(r, k) == WithKey(SortByCreatedDesc(s), k) {
      SortIsStable(s, k);
    }
    SortedUnique(r, SortByCreatedDesc(s));
  }
}
