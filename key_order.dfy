/**
 * The key order of the TreeMap that stores the rules: String.compareTo, which compares the first
 * differing characters and otherwise puts a proper prefix first. The sorted key sequence kept beside
 * the rule map is what keySet() enumerates.
 */
module KeyOrder {

  /** a and b agree before position i, and there a has the smaller character or has ended while b
      goes on: how String.compareTo finds a negative result. */
  ghost predicate SmallerAt(a: string, b: string, i: nat)
  {
    && i <= |a| && i <= |b| && a[..i] == b[..i]
    && ((i == |a| && i < |b|) || (i < |a| && i < |b| && a[i] < b[i]))
  }

  /** a.compareTo(b) < 0, which holds exactly when a is smaller at their first difference. */
  function Less(a: string, b: string): (r: bool)
    ensures r <==> exists i: nat :: SmallerAt(a, b, i)
  {
    if a == [] then
      assert b != [] ==> SmallerAt(a, b, 0);
      b != []
    else if b == [] then false
    else if a[0] != b[0] then
      assert SmallerAt(a, b, 0) <==> a[0] < b[0];
      assert forall i: nat :: i > 0 ==> !SmallerAt(a, b, i) by {
        forall i: nat | i > 0 && i <= |a| && i <= |b| ensures a[..i] != b[..i] {
          assert a[..i][0] == a[0] && b[..i][0] == b[0];
        }
      }
      a[0] < b[0]
    else
      assert (exists i: nat :: SmallerAt(a, b, i)) <==> (exists i: nat :: SmallerAt(a[1..], b[1..], i)) by {
        if exists i: nat :: SmallerAt(a, b, i) {
          var i: nat :| SmallerAt(a, b, i);
          assert i > 0;
          SmallerAtShift(a, b, i - 1);
        }
        if exists i: nat :: SmallerAt(a[1..], b[1..], i) {
          var i: nat :| SmallerAt(a[1..], b[1..], i);
          SmallerAtShift(a, b, i);
        }
      }
      Less(a[1..], b[1..])
  }

  /** After an equal first character, the first difference moves one place back. */
  lemma SmallerAtShift(a: string, b: string, i: nat)
    requires a != [] && b != [] && a[0] == b[0]
    ensures SmallerAt(a, b, i + 1) <==> SmallerAt(a[1..], b[1..], i)
  {
    if i + 1 <= |a| && i + 1 <= |b| {
      assert a[..i + 1] == [a[0]] + a[1..][..i];
      assert b[..i + 1] == [b[0]] + b[1..][..i];
    }
  }

  lemma {:induction false} LessIrreflexive(a: string)
    ensures !Less(a, a)
  {
    if a != [] {
      LessIrreflexive(a[1..]);
    }
  }

  lemma {:induction false} LessTransitive(a: string, b: string, c: string)
    requires Less(a, b) && Less(b, c)
    ensures Less(a, c)
  {
    if a != [] && b != [] && c != [] && a[0] == b[0] && b[0] == c[0] {
      LessTransitive(a[1..], b[1..], c[1..]);
    }
  }

  lemma {:induction false} LessTotal(a: string, b: string)
    requires a != b
    ensures Less(a, b) || Less(b, a)
  {
    if a != [] && b != [] && a[0] == b[0] {
      assert a == [a[0]] + a[1..] && b == [b[0]] + b[1..];
      LessTotal(a[1..], b[1..]);
    }
  }

  ghost predicate StrictlySorted(ks: seq<string>)
  {
    forall i, j :: 0 <= i < j < |ks| ==> Less(ks[i], ks[j])
  }

  /** What TreeMap.put does to the key order: x joins the keys at its place, unless it is there already. */
  function Insert(ks: seq<string>, x: string): (r: seq<string>)
    requires StrictlySorted(ks)
    ensures StrictlySorted(r)
    ensures forall y :: y in r <==> y in ks || y == x
    ensures |r| == if x in ks then |ks| else |ks| + 1
  {
    if ks == [] then [x]
    else if x == ks[0] then ks
    else if Less(x, ks[0]) then
      assert forall j :: 0 < j < |ks| ==> Less(x, ks[j]) by {
        forall j | 0 < j < |ks| ensures Less(x, ks[j]) { LessTransitive(x, ks[0], ks[j]); }
      }
      assert x !in ks by {
        forall j | 0 <= j < |ks| ensures ks[j] != x { if j > 0 { LessIrreflexive(x); } }
      }
      [x] + ks
    else
      LessTotal(x, ks[0]);
      var rest := Insert(ks[1..], x);
      assert ks == [ks[0]] + ks[1..];
      assert x in ks <==> x in ks[1..];
      assert forall j :: 0 <= j < |rest| ==> Less(ks[0], rest[j]) by {
        forall j | 0 <= j < |rest| ensures Less(ks[0], rest[j]) {
          if rest[j] != x {
            assert rest[j] in rest;
            assert rest[j] in ks[1..];
            var m :| 0 <= m < |ks[1..]| && ks[1..][m] == rest[j];
            assert ks[m + 1] == rest[j];
          }
        }
      }
      [ks[0]] + rest
  }

}
