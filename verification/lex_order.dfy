/** Python's ordering of `str` values, which `sorted(set(...))` uses to number
    the vocabulary: code points are compared left to right and a proper prefix
    sorts first. (Dafny's own `<` on sequences means "proper prefix", so the
    order is defined here.) */
module LexOrder {

  predicate Less(a: string, b: string) {
    if |a| == 0 then |b| > 0
    else if |b| == 0 then false
    else if a[0] != b[0] then a[0] < b[0]
    else Less(a[1..], b[1..])
  }

  lemma {:induction false} LessIrreflexive(a: string)
    ensures !Less(a, a)
  {
    if |a| > 0 {
      LessIrreflexive(a[1..]);
    }
  }

  lemma {:induction false} LessTransitive(a: string, b: string, c: string)
    requires Less(a, b) && Less(b, c)
    ensures Less(a, c)
  {
    if |a| > 0 && a[0] == b[0] && b[0] == c[0] {
      LessTransitive(a[1..], b[1..], c[1..]);
    }
  }

  lemma {:induction false} LessTotal(a: string, b: string)
    ensures a == b || Less(a, b) || Less(b, a)
  {
    if |a| > 0 && |b| > 0 && a[0] == b[0] {
      LessTotal(a[1..], b[1..]);
      if a[1..] == b[1..] {
        assert a == [a[0]] + a[1..] && b == [b[0]] + b[1..];
      }
    }
  }

  lemma LessAsymmetric(a: string, b: string)
    requires Less(a, b)
    ensures !Less(b, a)
  {
    if Less(b, a) {
      LessTransitive(a, b, a);
      LessIrreflexive(a);
    }
  }

  /** Sorted in Python's order without repetitions. */
  predicate StrictlySorted(s: seq<string>) {
    forall i, j :: 0 <= i < j < |s| ==> Less(s[i], s[j])
  }

  /** Adds `w` to a strictly sorted list unless it is already there. */
  function Insert(s: seq<string>, w: string): (r: seq<string>)
    requires StrictlySorted(s)
    ensures StrictlySorted(r)
    ensures forall u :: u in r <==> u in s || u == w
  {
    if |s| == 0 then [w]
    else if w == s[0] then s
    else if Less(w, s[0]) then
      assert forall j :: 0 < j < |s| ==> Less(w, s[j]) by {
        forall j | 0 < j < |s|
          ensures Less(w, s[j])
        {
          LessTransitive(w, s[0], s[j]);
        }
      }
      [w] + s
    else
      LessTotal(w, s[0]);
      var rest := Insert(s[1..], w);
      assert forall u :: u in rest ==> Less(s[0], u);
      [s[0]] + rest
  }

  /** `sorted(set(ws))`. */
  function SortedSet(ws: seq<string>): (r: seq<string>)
    ensures StrictlySorted(r)
    ensures forall u :: u in r <==> u in ws
  {
    if |ws| == 0 then []
    else
      var r := Insert(SortedSet(ws[..|ws| - 1]), ws[|ws| - 1]);
      assert ws == ws[..|ws| - 1] + [ws[|ws| - 1]];
      r
  }

  /** Two strictly sorted lists with the same elements are equal, so the
      sorted order of a set of words is unique. */
  lemma {:induction false} SortedIsUnique(a: seq<string>, b: seq<string>)
    requires StrictlySorted(a) && StrictlySorted(b)
    requires forall u :: u in a <==> u in b
    ensures a == b
  {
    assert |a| == 0 <==> |b| == 0 by {
      if |a| > 0 {
        assert a[0] in b;
      }
      if |b| > 0 {
        assert b[0] in a;
      }
    }
    if |a| > 0 {
      assert a[0] in b && b[0] in a;
      assert a[0] == b[0] by {
        if a[0] != b[0] {
          var j :| 0 <= j < |a| && a[j] == b[0];
          var i :| 0 <= i < |b| && b[i] == a[0];
          LessAsymmetric(a[0], b[0]);
        }
      }
      forall u
        ensures u in a[1..] <==> u in b[1..]
      {
        if u in a[1..] {
          var j :| 1 <= j < |a| && a[j] == u;
          LessIrreflexive(a[0]);
          assert u in b;
          var i :| 0 <= i < |b| && b[i] == u;
          assert b[1..][i - 1] == u;
        }
        if u in b[1..] {
          var j :| 1 <= j < |b| && b[j] == u;
          LessIrreflexive(b[0]);
          assert u in a;
          var i :| 0 <= i < |a| && a[i] == u;
          assert a[1..][i - 1] == u;
        }
      }
      SortedIsUnique(a[1..], b[1..]);
      assert a == [a[0]] + a[1..] && b == [b[0]] + b[1..];
    }
  }

  /** The distinct elements of `s` that sort before `w`. */
  function Below(s: seq<string>, w: string): set<string> {
    set u | u in s && Less(u, w)
  }

  /** In a strictly sorted list the element at position `k` has exactly `k`
      elements of the list below it. */
  lemma RankIsPosition(s: seq<string>, k: int)
    requires StrictlySorted(s)
    requires 0 <= k < |s|
    ensures |Below(s, s[k])| == k
  {
    var below := Below(s, s[k]);
    assert below == set u | u in s[..k] by {
      forall u | u in below
        ensures u in s[..k]
      {
        var j :| 0 <= j < |s| && s[j] == u;
        if j >= k {
          if j == k {
            LessIrreflexive(u);
          } else {
            LessAsymmetric(s[k], s[j]);
          }
        }
        assert s[..k][j] == u;
      }
      forall u | u in s[..k]
        ensures u in below
      {
        var j :| 0 <= j < k && s[..k][j] == u;
        assert s[j] == u;
      }
    }
    DistinctCard(s[..k]);
    assert |set u | u in s[..k]| == k;
    assert |below| == k;
  }

  /** Helper: a strictly sorted list has as many distinct elements as positions. */
  lemma {:induction false} DistinctCard(s: seq<string>)
    requires StrictlySorted(s)
    ensures |set u | u in s| == |s|
  {
    if |s| > 0 {
      DistinctCard(s[1..]);
      assert (set u | u in s) == {s[0]} + set u | u in s[1..];
      assert s[0] !in s[1..] by {
        LessIrreflexive(s[0]);
      }
    }
  }
}
