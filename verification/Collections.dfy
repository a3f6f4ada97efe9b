/** Small facts about numbers, lists and finite sets that several modules share. */
module Collections {
  function Min(a: nat, b: nat): nat { if a < b then a else b }

  function Max(a: nat, b: nat): nat { if a < b then b else a }

  ghost predicate Distinct(s: seq<nat>) { forall i, j :: 0 <= i < j < |s| ==> s[i] != s[j] }

  lemma CardMono<T>(a: set<T>, b: set<T>)
    requires a <= b
    ensures |a| <= |b|
  {
    if a == {} {
    } else {
      var x :| x in a;
      CardMono(a - {x}, b - {x});
    }
  }

  lemma {:induction false} MaxExists(s: set<nat>) returns (m: nat)
    requires s != {}
    ensures m in s && forall k :: k in s ==> k <= m
  {
    var x :| x in s;
    if s == {x} {
      m := x;
    } else {
      var n := MaxExists(s - {x});
      m := if n < x then x else n;
      assert forall k :: k in s ==> k == x || k in s - {x};
    }
  }

  lemma {:induction false} MinExists(s: set<nat>) returns (m: nat)
    requires s != {}
    ensures m in s && forall k :: k in s ==> m <= k
  {
    var x :| x in s;
    if s == {x} {
      m := x;
    } else {
      var n := MinExists(s - {x});
      m := if x < n then x else n;
      assert forall k :: k in s ==> k == x || k in s - {x};
    }
  }
}
