/**
 * The order `fieldKeys.sorted()` puts schema keys in: Kotlin's natural
 * `String` order, lexicographic by character with a proper prefix first.
 * `Ascending(keys)` is the sorted list of a key set.
 */
module KeyOrder {

  /** `a < b` in Kotlin's `String.compareTo`. */
  predicate Below(a: string, b: string)
    decreases |a|
  {
    if a == [] then b != []
    else if b == [] then false
    else a[0] < b[0] || (a[0] == b[0] && Below(a[1..], b[1..]))
  }

  lemma {:induction false} BelowIrreflexive(a: string)
    ensures !Below(a, a)
    decreases |a|
  {
    if a != [] {
      BelowIrreflexive(a[1..]);
    }
  }

  lemma {:induction false} BelowAsymmetric(a: string, b: string)
    ensures !(Below(a, b) && Below(b, a))
    decreases |a|
  {
    if a != [] && b != [] && a[0] == b[0] {
      BelowAsymmetric(a[1..], b[1..]);
    }
  }

  lemma {:induction false} BelowTransitive(a: string, b: string, c: string)
    requires Below(a, b) && Below(b, c)
    ensures Below(a, c)
    decreases |a|
  {
    if a != [] && a[0] == b[0] && b[0] == c[0] {
      BelowTransitive(a[1..], b[1..], c[1..]);
    }
  }

  lemma {:induction false} BelowTotal(a: string, b: string)
    requires a != b
    ensures Below(a, b) || Below(b, a)
    decreases |a|
  {
    if a != [] && b != [] && a[0] == b[0] {
      assert a == [a[0]] + a[1..] && b == [b[0]] + b[1..];
      BelowTotal(a[1..], b[1..]);
    }
  }

  /** `m` comes before every other key of `keys`. */
  predicate IsMin(m: string, keys: set<string>) {
    forall k :: k in keys ==> k == m || Below(m, k)
  }

  /** Every non-empty finite key set has a smallest key. */
  lemma {:induction false} MinExists(keys: set<string>)
    requires keys != {}
    ensures exists m :: m in keys && IsMin(m, keys)
    decreases |keys|
  {
    var x :| x in keys;
    var rest := keys - {x};
    if rest == {} {
      assert keys == {x};
      assert IsMin(x, keys);
    } else {
      MinExists(rest);
      var m :| m in rest && IsMin(m, rest);
      if Below(x, m) {
        forall k | k in keys && k != x ensures Below(x, k) {
          if k != m {
            BelowTransitive(x, m, k);
          }
        }
        assert IsMin(x, keys);
      } else {
        BelowTotal(x, m);
        assert IsMin(m, keys);
      }
    }
  }

  lemma MinUnique(a: string, b: string, keys: set<string>)
    requires a in keys && IsMin(a, keys) && b in keys && IsMin(b, keys)
    ensures a == b
  {
    BelowAsymmetric(a, b);
  }

  /** Every element of `s` is below every later one. */
  predicate StrictlyAscending(s: seq<string>) {
    forall i, j :: 0 <= i < j < |s| ==> Below(s[i], s[j])
  }

  /** The keys of `keys` in ascending order (Kotlin's `keys.sorted()`). */
  ghost function Ascending(keys: set<string>): seq<string>
    decreases keys
  {
    if keys == {} then []
    else
      MinExists(keys);
      var m :| m in keys && IsMin(m, keys);
      [m] + Ascending(keys - {m})
  }

  /** The ascending list starts with the smallest key. */
  lemma AscendingHead(keys: set<string>, m: string)
    requires m in keys && IsMin(m, keys)
    ensures Ascending(keys) == [m] + Ascending(keys - {m})
  {
    var m' :| m' in keys && IsMin(m', keys) && Ascending(keys) == [m'] + Ascending(keys - {m'});
    MinUnique(m, m', keys);
  }

  /**
   * `Ascending(keys)` lists the keys of `keys` and nothing else, one entry
   * per key, in strictly ascending order.
   */
  lemma {:induction false} AscendingSpec(keys: set<string>)
    ensures StrictlyAscending(Ascending(keys))
    ensures forall k :: k in Ascending(keys) <==> k in keys
    ensures |Ascending(keys)| == |keys|
    decreases keys
  {
    if keys != {} {
      MinExists(keys);
      var m :| m in keys && IsMin(m, keys);
      AscendingHead(keys, m);
      var rest := keys - {m};
      AscendingSpec(rest);
      PrependMin(m, Ascending(rest), rest);
    }
  }

  /** Putting a key below all of `rest` in front of an ascending listing of `rest`. */
  lemma PrependMin(m: string, t: seq<string>, rest: set<string>)
    requires StrictlyAscending(t) && forall k :: k in t <==> k in rest
    requires forall k :: k in rest ==> Below(m, k)
    ensures StrictlyAscending([m] + t)
  {
    var s := [m] + t;
    forall i, j | 0 <= i < j < |s| ensures Below(s[i], s[j]) {
      assert s[j] == t[j - 1];
      if i > 0 {
        assert s[i] == t[i - 1];
      }
    }
  }

  /** Each key of `keys` occurs exactly once in `Ascending(keys)`. */
  lemma {:induction false} AscendingCounts(keys: set<string>)
    ensures forall k :: multiset(Ascending(keys))[k] == (if k in keys then 1 else 0)
    decreases keys
  {
    if keys != {} {
      MinExists(keys);
      var m :| m in keys && IsMin(m, keys);
      AscendingHead(keys, m);
      var rest := keys - {m};
      AscendingCounts(rest);
      assert multiset(Ascending(keys)) == multiset{m} + multiset(Ascending(rest));
    }
  }

  /**
   * A strictly ascending list holding exactly the keys of `keys` is
   * `Ascending(keys)`: the sorted order of a key set is unique.
   */
  lemma {:induction false} AscendingUnique(s: seq<string>, keys: set<string>)
    requires StrictlyAscending(s)
    requires forall k :: k in s <==> k in keys
    ensures s == Ascending(keys)
    decreases |s|
  {
    if s == [] {
      assert keys == {};
    } else {
      var m := s[0];
      forall k | k in keys && k != m ensures Below(m, k) {
        var j :| 0 <= j < |s| && s[j] == k;
      }
      assert IsMin(m, keys);
      AscendingHead(keys, m);
      BelowIrreflexive(m);
      forall k ensures k in s[1..] <==> k in keys - {m} {
        if k in s[1..] {
          var j :| 1 <= j < |s| && s[j] == k;
        }
        if k in keys - {m} {
          var j :| 0 <= j < |s| && s[j] == k;
          assert j != 0;
          assert s[1..][j - 1] == k;
        }
      }
      AscendingUnique(s[1..], keys - {m});
      assert s == [m] + s[1..];
    }
  }

  /**
   * Adding a key above every key of a set appends it to the sorted list:
   * the step the `sorted().forEach` loop takes.
   */
  lemma AscendingSnoc(keys: set<string>, m: string)
    requires m !in keys
    requires forall k :: k in keys ==> Below(k, m)
    ensures Ascending(keys + {m}) == Ascending(keys) + [m]
  {
    AscendingSpec(keys);
    var s := Ascending(keys) + [m];
    forall i, j | 0 <= i < j < |s| ensures Below(s[i], s[j]) {
      if j == |s| - 1 {
        assert s[i] in Ascending(keys);
      }
    }
    AscendingUnique(s, keys + {m});
  }

  /** Every key of `done` is below every key of `rest`. */
  predicate Precedes(done: set<string>, rest: set<string>) {
    forall d, k :: d in done && k in rest ==> Below(d, k)
  }

  /**
   * Moving the smallest key of `rest` over to `done` keeps every key of
   * `done` below every key of `rest`.
   */
  lemma VisitMin(keys: set<string>, done: set<string>, rest: set<string>, key: string)
    requires done <= keys && rest == keys - done
    requires Precedes(done, rest) && key in rest && IsMin(key, rest)
    ensures done + {key} <= keys && rest - {key} == keys - (done + {key})
    ensures key !in done
    ensures forall d :: d in done ==> Below(d, key)
    ensures Precedes(done + {key}, rest - {key})
  {
    if key in done {
      BelowIrreflexive(key);
    }
  }
}
