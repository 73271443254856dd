/** The few string operations the parser and the graph query rely on, with the
    behaviour of Python's `str.isspace`, `str.strip()`, `str.split('\n')` and of
    Cypher's `CONTAINS` operator. Strings are sequences of Unicode scalar values. */
module Text {

  /** Python's `str.isspace()` for one character: the characters Python strips
      when `strip()` is called without arguments. */
  predicate IsSpace(c: char) {
    ('\t' <= c <= '\r') || ('\U{1C}' <= c <= '\U{1F}') || c == ' ' ||
    c == '\U{85}' || c == '\U{A0}' || c == '\U{1680}' ||
    ('\U{2000}' <= c <= '\U{200A}') || c == '\U{2028}' || c == '\U{2029}' ||
    c == '\U{202F}' || c == '\U{205F}' || c == '\U{3000}'
  }

  /** No whitespace at either end. */
  predicate Trimmed(s: string) {
    s == [] || (!IsSpace(s[0]) && !IsSpace(s[|s| - 1]))
  }

  /** Removes leading whitespace (see TrimLeftSpec). */
  function TrimLeft(s: string): string {
    if s != [] && IsSpace(s[0]) then TrimLeft(s[1..]) else s
  }

  /** Removes trailing whitespace (see TrimRightSpec). */
  function TrimRight(s: string): string {
    if s != [] && IsSpace(s[|s| - 1]) then TrimRight(s[..|s| - 1]) else s
  }

  /** Python's `s.strip()`: whitespace removed from both ends (see StripSpec). */
  function Strip(s: string): string {
    TrimRight(TrimLeft(s))
  }

  /** TrimLeft leaves the longest suffix of `s` that does not start with whitespace,
      and everything it removes is whitespace. */
  lemma {:induction false} TrimLeftSpec(s: string)
    ensures var r := TrimLeft(s);
      |r| <= |s| && r == s[|s| - |r|..] &&
      (forall k | 0 <= k < |s| - |r| :: IsSpace(s[k])) &&
      (r != [] ==> !IsSpace(r[0]))
  {
    if s != [] && IsSpace(s[0]) {
      TrimLeftSpec(s[1..]);
      var r := TrimLeft(s[1..]);
      assert s[1..][|s| - 1 - |r|..] == s[|s| - |r|..];
      forall k | 1 <= k < |s| - |r|
        ensures IsSpace(s[k])
      {
        assert s[k] == s[1..][k - 1];
      }
    }
  }

  /** TrimRight leaves the longest prefix of `s` that does not end with whitespace,
      and everything it removes is whitespace. */
  lemma {:induction false} TrimRightSpec(s: string)
    ensures var r := TrimRight(s);
      |r| <= |s| && r == s[..|r|] &&
      (forall k | |r| <= k < |s| :: IsSpace(s[k])) &&
      (r != [] ==> !IsSpace(r[|r| - 1]))
  {
    if s != [] && IsSpace(s[|s| - 1]) {
      TrimRightSpec(s[..|s| - 1]);
      var r := TrimRight(s[..|s| - 1]);
      assert s[..|s| - 1][..|r|] == s[..|r|];
      forall k | |r| <= k < |s| - 1
        ensures IsSpace(s[k])
      {
        assert s[k] == s[..|s| - 1][k];
      }
    }
  }

  /** The result of `strip()` has no whitespace at either end, holds only characters
      of the input, and a string already stripped is left as it is. */
  lemma StripSpec(s: string)
    ensures Trimmed(Strip(s))
    ensures forall ch | ch in Strip(s) :: ch in s
    ensures Trimmed(s) ==> Strip(s) == s
  {
    var l := TrimLeft(s);
    var r := TrimRight(l);
    TrimLeftSpec(s);
    TrimRightSpec(l);
    if r != [] {
      assert r[0] == l[0];
    }
    forall ch | ch in r
      ensures ch in s
    {
      var k :| 0 <= k < |r| && r[k] == ch;
      assert ch == s[|s| - |l| + k];
    }
  }

  /** What `strip()` removes is whitespace: `s` is whitespace, then the result, then
      whitespace. With StripSpec this says the result is the longest such middle. */
  lemma StripSplitsOff(s: string)
    ensures exists a, b | 0 <= a <= b <= |s| ::
              Strip(s) == s[a..b] && (forall k | 0 <= k < a :: IsSpace(s[k])) &&
              (forall k | b <= k < |s| :: IsSpace(s[k]))
  {
    var l := TrimLeft(s);
    var r := TrimRight(l);
    TrimLeftSpec(s);
    TrimRightSpec(l);
    var a := |s| - |l|;
    assert Strip(s) == r == s[a..a + |r|];
    forall k | a + |r| <= k < |s|
      ensures IsSpace(s[k])
    {
      assert s[k] == l[k - a];
    }
  }

  /** Python's `s.split('\n')`: the pieces between newlines, in order; an empty
      string and a trailing newline give an empty piece, so there is always one. */
  function Split(s: string): (r: seq<string>)
    ensures |r| >= 1
  {
    if s == [] then [""]
    else if s[0] == '\n' then [""] + Split(s[1..])
    else
      var t := Split(s[1..]);
      [[s[0]] + t[0]] + t[1..]
  }

  /** The pieces hold no newline and only characters of `s`. */
  lemma {:induction false} SplitPieces(s: string)
    ensures forall l | l in Split(s) :: '\n' !in l
    ensures forall l, ch | l in Split(s) && ch in l :: ch in s
  {
    if s != [] {
      SplitPieces(s[1..]);
    }
  }

  /** `"\n".join(ls)`: the inverse of Split. */
  function Join(ls: seq<string>): string
    requires |ls| >= 1
  {
    if |ls| == 1 then ls[0] else ls[0] + "\n" + Join(ls[1..])
  }

  /** A string without a newline is one piece. */
  lemma {:induction false} SplitOneLine(s: string)
    requires '\n' !in s
    ensures Split(s) == [s]
  {
    if s != [] {
      assert s[0] != '\n' && '\n' !in s[1..];
      SplitOneLine(s[1..]);
      assert s == [s[0]] + s[1..];
    }
  }

  /** Splitting at a newline splits the pieces: the lines of `x + "\n" + y` are the
      lines of `x` followed by the lines of `y`. */
  lemma {:induction false} SplitConcat(x: string, y: string)
    ensures Split(x + "\n" + y) == Split(x) + Split(y)
  {
    if x == [] {
      assert x + "\n" + y == "\n" + y;
      assert ("\n" + y)[1..] == y;
    } else {
      assert (x + "\n" + y)[1..] == x[1..] + "\n" + y;
      SplitConcat(x[1..], y);
    }
  }

  /** Joining the pieces gives back the string. */
  lemma {:induction false} JoinSplit(s: string)
    ensures Join(Split(s)) == s
  {
    if s != [] {
      JoinSplit(s[1..]);
      var t := Split(s[1..]);
      if s[0] == '\n' {
        assert Split(s) == [""] + t;
        assert s == "\n" + s[1..];
      } else if |t| == 1 {
        assert s == [s[0]] + s[1..];
      } else {
        assert Split(s)[1..] == t[1..];
        assert s == [s[0]] + s[1..];
      }
    }
  }

  /** Splitting a join of newline-free pieces gives back the pieces. */
  lemma {:induction false} SplitJoin(ls: seq<string>)
    requires |ls| >= 1
    requires forall l | l in ls :: '\n' !in l
    ensures Split(Join(ls)) == ls
  {
    SplitOneLine(ls[0]);
    if |ls| > 1 {
      SplitJoin(ls[1..]);
      SplitConcat(ls[0], Join(ls[1..]));
      assert ls == [ls[0]] + ls[1..];
    }
  }

  /** Cypher's `s CONTAINS q`: `q` occurs in `s` as a contiguous, case-sensitive piece. */
  predicate Contains(s: string, q: string)
    decreases |s|
  {
    q <= s || (s != [] && Contains(s[1..], q))
  }

  /** `q` is the window of `s` that starts at index `i`. */
  predicate OccursAt(s: string, q: string, i: int) {
    0 <= i && i + |q| <= |s| && s[i..i + |q|] == q
  }

  /** A piece of an occurrence is the same piece of the occurring string. */
  lemma OccurrenceSlice(s: string, q: string, i: nat, lo: nat, hi: nat)
    requires OccursAt(s, q, i) && lo <= hi <= |q|
    ensures s[i + lo..i + hi] == q[lo..hi]
  {
    forall j | 0 <= j < hi - lo
      ensures s[i + lo..i + hi][j] == q[lo..hi][j]
    {
      assert s[i..i + |q|][lo + j] == q[lo + j];
    }
  }
  /** Contains agrees with "some window of `s` equals `q`", in both directions. */
  lemma {:induction false} ContainsIff(s: string, q: string)
    ensures Contains(s, q) <==> exists i :: OccursAt(s, q, i)
  {
    if q <= s {
      assert OccursAt(s, q, 0);
    } else if s != [] {
      ContainsIff(s[1..], q);
      if Contains(s[1..], q) {
        var i :| OccursAt(s[1..], q, i);
        assert OccursAt(s, q, i + 1);
      }
      if exists i :: OccursAt(s, q, i) {
        var i :| OccursAt(s, q, i);
        assert i != 0;
        assert OccursAt(s[1..], q, i - 1);
      }
    }
  }

  /** Whatever `s` contains, its characters are characters of `s`. */
  lemma {:induction false} ContainsChars(s: string, q: string)
    requires Contains(s, q)
    ensures forall ch | ch in q :: ch in s
  {
    if !(q <= s) {
      ContainsChars(s[1..], q);
    }
  }
}
