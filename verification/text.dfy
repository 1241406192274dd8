/**
 * The Kotlin string operations the widget and the alarm sensor rely on:
 * `indexOf`, `contains`, `split(sep)`, `split(sep, limit = 2)` and
 * `replace(c, "")`.  Strings are sequences of characters.
 */
module Text {
  import opened Wrappers

  /** `sub` occurs in `s` starting at index `j`. */
  predicate OccursAt(s: string, sub: string, j: nat) {
    j + |sub| <= |s| && s[j..j + |sub|] == sub
  }

  /** Leftmost index at which `sub` occurs in `s` (Kotlin's `indexOf`). */
  function IndexOf(s: string, sub: string): (r: Option<nat>)
    ensures r.Some? ==> OccursAt(s, sub, r.value)
    ensures r.Some? ==> forall j :: 0 <= j < r.value ==> !OccursAt(s, sub, j)
    ensures r.None? ==> forall j :: 0 <= j <= |s| ==> !OccursAt(s, sub, j)
    decreases |s|
  {
    if sub <= s then Some(0)
    else if s == [] then None
    else
      var tail := IndexOf(s[1..], sub);
      ShiftOccurs(s, sub);
      if tail.None? then None else Some(tail.value + 1)
  }

  lemma ShiftOccurs(s: string, sub: string)
    requires s != []
    ensures forall j :: 1 <= j ==> OccursAt(s, sub, j) == OccursAt(s[1..], sub, j - 1)
  {
    forall j | 1 <= j
      ensures OccursAt(s, sub, j) == OccursAt(s[1..], sub, j - 1)
    {
      if j + |sub| <= |s| {
        assert s[j..j + |sub|] == s[1..][j - 1..j - 1 + |sub|];
      }
    }
  }

  /** Kotlin's `s.contains(sub)`. */
  predicate Contains(s: string, sub: string) {
    IndexOf(s, sub).Some?
  }

  /** `s` contains `sub` exactly when `sub` occurs at some index of `s`. */
  lemma ContainsAt(s: string, sub: string, j: nat)
    requires OccursAt(s, sub, j)
    ensures Contains(s, sub)
  {
  }

  /** A one-character needle occurs exactly when the character does. */
  lemma ContainsChar(s: string, c: char)
    ensures Contains(s, [c]) <==> c in s
  {
    if c in s {
      var j :| 0 <= j < |s| && s[j] == c;
      assert OccursAt(s, [c], j);
    }
    if Contains(s, [c]) {
      var i := IndexOf(s, [c]).value;
      assert s[i..i + 1] == [c];
      assert s[i] == c;
    }
  }

  /**
   * Kotlin's `s.split(sep)` for a non-empty literal separator: the pieces
   * between the non-overlapping occurrences of `sep`, scanned from the left.
   * The empty string splits into one empty piece.
   */
  function Split(s: string, sep: string): (parts: seq<string>)
    requires sep != []
    ensures |parts| >= 1
    decreases |s|
  {
    var i := IndexOf(s, sep);
    if i.None? then [s] else [s[..i.value]] + Split(s[i.value + |sep|..], sep)
  }

  /** Kotlin's `parts.joinToString(sep)`. */
  function Join(parts: seq<string>, sep: string): string
    requires |parts| >= 1
  {
    if |parts| == 1 then parts[0] else parts[0] + sep + Join(parts[1..], sep)
  }

  /** Joining the pieces of a split gives back the original string. */
  lemma {:induction false} JoinSplit(s: string, sep: string)
    requires sep != []
    ensures Join(Split(s, sep), sep) == s
    decreases |s|
  {
    var i := IndexOf(s, sep);
    if i.Some? {
      var k := i.value;
      var rest := s[k + |sep|..];
      JoinSplit(rest, sep);
      assert Split(s, sep) == [s[..k]] + Split(rest, sep);
      JoinCons(s[..k], Split(rest, sep), sep);
      AroundOccurrence(s, sep, k);
    }
  }

  lemma JoinCons(head: string, tail: seq<string>, sep: string)
    requires |tail| >= 1
    ensures Join([head] + tail, sep) == head + sep + Join(tail, sep)
  {
    assert ([head] + tail)[1..] == tail;
  }

  lemma AroundOccurrence(s: string, sub: string, k: nat)
    requires OccursAt(s, sub, k)
    ensures s == s[..k] + sub + s[k + |sub|..]
  {
    assert s == s[..k] + s[k..k + |sub|] + s[k + |sub|..];
  }

  /** No piece of a split contains the separator. */
  lemma {:induction false} SplitPiecesAreFree(s: string, sep: string)
    requires sep != []
    ensures forall p :: p in Split(s, sep) ==> !Contains(p, sep)
    decreases |s|
  {
    var i := IndexOf(s, sep);
    if i.Some? {
      var k := i.value;
      SplitPiecesAreFree(s[k + |sep|..], sep);
      var head := s[..k];
      if Contains(head, sep) {
        var m := IndexOf(head, sep).value;
        assert head[m..m + |sep|] == s[m..m + |sep|];
        assert OccursAt(s, sep, m);
      }
    }
  }

  /** A string without the separator splits into itself alone. */
  lemma SplitWithoutSeparator(s: string, sep: string)
    requires sep != [] && !Contains(s, sep)
    ensures Split(s, sep) == [s]
  {
  }

  /**
   * In `p + sep + rest`, with a two-character separator whose characters
   * differ and a `p` that does not contain it, the leftmost occurrence of
   * the separator is the one right after `p`: none can straddle the boundary.
   */
  lemma {:induction false} FirstSeparatorAfter(p: string, sep: string, rest: string)
    requires |sep| == 2 && sep[0] != sep[1]
    requires !Contains(p, sep)
    ensures IndexOf(p + sep + rest, sep) == Some(|p|)
  {
    var s := p + sep + rest;
    assert s[|p|..|p| + 2] == sep;
    ContainsAt(s, sep, |p|);
    forall j | 0 <= j < |p| ensures !OccursAt(s, sep, j) {
      if j + 2 <= |p| {
        assert s[j..j + 2] == p[j..j + 2];
        assert !OccursAt(p, sep, j);
      } else {
        assert s[j + 1] == sep[0];
      }
    }
    var i := IndexOf(s, sep);
    assert OccursAt(s, sep, |p|);
    assert i.Some?;
    assert forall j :: 0 <= j < i.value ==> !OccursAt(s, sep, j);
    assert !(i.value < |p|);
    assert !(i.value > |p|);
  }

  /**
   * Splitting a list written with a two-character separator between its
   * entries gives the entries back, as long as no entry contains the
   * separator.
   */
  lemma {:induction false} SplitJoin(parts: seq<string>, sep: string)
    requires |parts| >= 1 && |sep| == 2 && sep[0] != sep[1]
    requires forall p :: p in parts ==> !Contains(p, sep)
    ensures Split(Join(parts, sep), sep) == parts
  {
    if |parts| > 1 {
      var rest := Join(parts[1..], sep);
      FirstSeparatorAfter(parts[0], sep, rest);
      SplitAfter(parts[0], sep, rest);
      SplitJoin(parts[1..], sep);
      assert parts == [parts[0]] + parts[1..];
    } else {
      SplitWithoutSeparator(parts[0], sep);
    }
  }

  /** When the first separator of `p + sep + rest` follows `p`, `p` is the first piece. */
  lemma SplitAfter(p: string, sep: string, rest: string)
    requires sep != [] && IndexOf(p + sep + rest, sep) == Some(|p|)
    ensures Split(p + sep + rest, sep) == [p] + Split(rest, sep)
  {
    var s := p + sep + rest;
    assert s[..|p|] == p;
    assert s[|p| + |sep|..] == rest;
  }

  /**
   * Kotlin's `s.split(sep, limit = 2)`: the text before the first
   * occurrence of `sep` and everything after it, or `[s]` when `sep` does
   * not occur.
   */
  function SplitOnce(s: string, sep: string): (parts: seq<string>)
    requires sep != []
    ensures 1 <= |parts| <= 2
  {
    var i := IndexOf(s, sep);
    if i.None? then [s] else [s[..i.value], s[i.value + |sep|..]]
  }

  lemma FirstDotAfter(d: string, s: string)
    requires '.' !in d
    ensures IndexOf(d + "." + s, ".") == Some(|d|)
  {
    var t := d + "." + s;
    assert t[|d|..|d| + 1] == ".";
    ContainsAt(t, ".", |d|);
    forall j | 0 <= j < |d| ensures !OccursAt(t, ".", j) {
      assert t[j] == d[j];
    }
  }

  /**
   * Splitting `d + "." + s` once at "." gives back `[d, s]` exactly when `d`
   * holds no ".".
   */
  lemma DotRoundTrip(d: string, s: string)
    ensures SplitOnce(d + "." + s, ".") == [d, s] <==> '.' !in d
  {
    var t := d + "." + s;
    if '.' !in d {
      FirstDotAfter(d, s);
      assert t[..|d|] == d && t[|d| + 1..] == s;
    } else {
      var j :| 0 <= j < |d| && d[j] == '.';
      assert t[j..j + 1] == ".";
      ContainsAt(t, ".", j);
      var i := IndexOf(t, ".").value;
      assert OccursAt(t, ".", j);
      assert forall k :: 0 <= k < i ==> !OccursAt(t, ".", k);
      assert i <= j;
      assert SplitOnce(t, ".")[0] == t[..i];
    }
  }

  /**
   * When `t` splits into two parts at ".", the first part holds no "." and
   * rejoining the parts with "." gives back `t`; it stays whole exactly when
   * it holds no ".".
   */
  lemma SplitOnceDot(t: string)
    ensures var parts := SplitOnce(t, ".");
      && (|parts| == 2 ==> '.' !in parts[0] && parts[0] + "." + parts[1] == t)
      && (|parts| == 1 <==> '.' !in t)
      && (|parts| == 1 ==> parts == [t])
  {
    ContainsChar(t, '.');
    var i := IndexOf(t, ".");
    if i.Some? {
      var k := i.value;
      assert t == t[..k] + t[k..k + 1] + t[k + 1..];
      forall j | 0 <= j < k ensures t[..k][j] != '.' {
        assert !OccursAt(t, ".", j);
        assert t[j..j + 1] == [t[j]];
      }
    }
  }

  /** Kotlin's `s.replace(c.toString(), "")`: every occurrence of `c` removed. */
  function Remove(s: string, c: char): (r: string)
    ensures c !in r
    ensures |r| <= |s|
    ensures c !in s ==> r == s
    ensures forall x :: x in r ==> x in s
  {
    if s == [] then []
    else (if s[0] == c then [] else [s[0]]) + Remove(s[1..], c)
  }

  /**
   * Removal works piece by piece: the kept characters of `a + b` are those
   * of `a` followed by those of `b`, in order.  With `RemoveOne` this pins
   * `Remove` down on every string.
   */
  lemma {:induction false} RemoveAppend(a: string, b: string, c: char)
    ensures Remove(a + b, c) == Remove(a, c) + Remove(b, c)
    decreases |a|
  {
    if a == [] {
      assert a + b == b;
    } else {
      assert (a + b)[0] == a[0];
      assert (a + b)[1..] == a[1..] + b;
      RemoveAppend(a[1..], b, c);
    }
  }

  /** A single character is dropped if it is `c` and kept otherwise. */
  lemma RemoveOne(ch: char, c: char)
    ensures Remove([ch], c) == if ch == c then [] else [ch]
  {
    assert [ch][1..] == [];
  }
}
