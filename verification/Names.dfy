/** Sorted listings of the column names that key a hash map: the order statements are built in. */
module Names {
  predicate Less(a: string, b: string) {
    if |b| == 0 then false
    else if |a| == 0 then true
    else a[0] < b[0] || (a[0] == b[0] && Less(a[1..], b[1..]))
  }

  lemma {:induction false} LessTransitive(a: string, b: string, c: string)
    requires Less(a, b) && Less(b, c)
    ensures Less(a, c)
  {
    if |a| > 0 && a[0] == b[0] == c[0] { LessTransitive(a[1..], b[1..], c[1..]); }
  }

  lemma {:induction false} LessTotal(a: string, b: string)
    ensures Less(a, b) || Less(b, a) || a == b
  {
    if |a| > 0 && |b| > 0 && a[0] == b[0] {
      LessTotal(a[1..], b[1..]);
      assert a == [a[0]] + a[1..] && b == [b[0]] + b[1..];
    }
  }

  lemma {:induction false} LessIrreflexive(a: string)
    ensures !Less(a, a)
  {
    if |a| > 0 { LessIrreflexive(a[1..]); }
  }

  /** They agree up to some place, and there a ends, or has the smaller character. */
  predicate PartsAt(a: string, b: string, k: nat) {
    && k <= |a| && k < |b| && a[..k] == b[..k]
    && (k == |a| || a[k] < b[k])
  }

  lemma HeadsDiffer(a: string, b: string, k: nat)
    requires 0 < k <= |a| && k <= |b| && a[0] != b[0]
    ensures a[..k] != b[..k]
  {
    assert a[..k][0] == a[0] && b[..k][0] == b[0];
  }

  /** The order is the one of dictionaries. */
  lemma {:induction false} LessIff(a: string, b: string)
    ensures Less(a, b) <==> exists k: nat :: PartsAt(a, b, k)
  {
    if a == "" || b == "" || a[0] < b[0] {
      assert b != "" ==> PartsAt(a, b, 0);
    } else if a[0] == b[0] {
      var c, d := a[1..], b[1..];
      LessIff(c, d);
      if k: nat :| PartsAt(c, d, k) {
        assert a[..k + 1] == [a[0]] + c[..k] && b[..k + 1] == [b[0]] + d[..k];
        assert PartsAt(a, b, k + 1);
      }
      if k: nat :| PartsAt(a, b, k) {
        assert k > 0 && c[..k - 1] == a[..k][1..] && d[..k - 1] == b[..k][1..];
        assert PartsAt(c, d, k - 1);
      }
    } else {
      forall k: nat ensures !PartsAt(a, b, k) {
        if 0 < k <= |a| && k <= |b| { HeadsDiffer(a, b, k); }
      }
    }
  }

  ghost predicate Increasing(names: seq<string>) {
    forall i, j :: 0 <= i < j < |names| ==> Less(names[i], names[j])
  }

  ghost predicate Lists(names: seq<string>, keys: set<string>) {
    Increasing(names) && (forall n :: n in names <==> n in keys)
  }

  lemma IncreasingDistinct(names: seq<string>)
    requires Increasing(names)
    ensures forall i, j :: 0 <= i < j < |names| ==> names[i] != names[j]
  {
    forall i, j | 0 <= i < j < |names| ensures names[i] != names[j] { LessIrreflexive(names[i]); }
  }

  /** A set of names has only one increasing listing. */
  lemma {:induction false} ListsUnique(a: seq<string>, b: seq<string>, keys: set<string>)
    requires Lists(a, keys) && Lists(b, keys)
    ensures a == b
    decreases |a|
  {
    IncreasingDistinct(a);
    IncreasingDistinct(b);
    if |a| > 0 || |b| > 0 {
      var n := if |a| > 0 then a[0] else b[0];
      assert n in keys && n in a && n in b;
      assert a[0] in keys && b[0] in keys;
      if a[0] != b[0] {
        var i :| 0 < i < |b| && b[i] == a[0];
        var j :| 0 < j < |a| && a[j] == b[0];
        LessTransitive(a[0], b[0], a[0]);
        LessIrreflexive(a[0]);
      }
      forall n ensures n in a[1..] <==> n in keys - {a[0]} { assert a == [a[0]] + a[1..]; }
      forall n ensures n in b[1..] <==> n in keys - {a[0]} { assert b == [b[0]] + b[1..]; }
      ListsUnique(a[1..], b[1..], keys - {a[0]});
      assert a == [a[0]] + a[1..] && b == [b[0]] + b[1..];
    }
  }

  function InsertName(names: seq<string>, n: string): seq<string> {
    if |names| == 0 || Less(n, names[0]) then [n] + names else [names[0]] + InsertName(names[1..], n)
  }

  lemma {:induction false} InsertLists(names: seq<string>, n: string, keys: set<string>)
    requires Lists(names, keys) && n !in keys
    ensures Lists(InsertName(names, n), keys + {n})
  {
    if |names| > 0 {
      var first, rest := names[0], names[1..];
      assert names == [first] + rest;
      if Less(n, first) {
        forall j | 0 <= j < |names| ensures Less(n, names[j]) {
          if j > 0 { LessTransitive(n, first, names[j]); }
        }
      } else {
        assert first in keys;
        LessTotal(first, n);
        IncreasingDistinct(names);
        forall m ensures m in rest <==> m in keys - {first} {}
        InsertLists(rest, n, keys - {first});
        var tail := InsertName(rest, n);
        forall j | 0 <= j < |tail| ensures Less(first, tail[j]) {
          assert tail[j] in tail;
          if tail[j] != n { assert tail[j] in rest; }
        }
        assert keys - {first} + {n} + {first} == keys + {n};
      }
    }
  }

  /** The names of a set, sorted. */
  method SortNames(keys: set<string>) returns (names: seq<string>)
    ensures Lists(names, keys)
  {
    names := [];
    var rest := keys;
    while rest != {}
      invariant rest <= keys && Lists(names, keys - rest)
      decreases rest
    {
      var n :| n in rest;
      InsertLists(names, n, keys - rest);
      names := InsertName(names, n);
      assert keys - rest + {n} == keys - (rest - {n});
      rest := rest - {n};
    }
    assert keys - rest == keys;
  }

  lemma {:induction false} ListingExists(keys: set<string>)
    ensures exists names :: Lists(names, keys)
    decreases keys
  {
    if keys == {} {
      assert Lists([], keys);
    } else {
      var n :| n in keys;
      ListingExists(keys - {n});
      var names :| Lists(names, keys - {n});
      InsertLists(names, n, keys - {n});
      assert keys - {n} + {n} == keys;
    }
  }

  ghost function Sorted(keys: set<string>): (names: seq<string>)
    ensures Lists(names, keys)
  {
    ListingExists(keys);
    var names :| Lists(names, keys);
    names
  }
}
