/** The Python `str` operations that bot.py relies on, on `string` (`seq<char>`). */
module PyStr {

  // ---------------------------------------------------------------------------
  // str.lower()
  // ---------------------------------------------------------------------------

  /** Lower-case mapping of one character; only the ASCII letters A-Z change. */
  function LowerChar(c: char): (r: char)
    ensures 'A' <= c <= 'Z' ==> 'a' <= r <= 'z' && r as int - c as int == 32
    ensures !('A' <= c <= 'Z') ==> r == c
  {
    if 'A' <= c <= 'Z' then (c as int - 'A' as int + 'a' as int) as char else c
  }

  /** `s.lower()`, restricted to the ASCII letters. */
  function Lower(s: string): (r: string)
    ensures |r| == |s|
    ensures forall i | 0 <= i < |s| :: r[i] == LowerChar(s[i])
  {
    if s == [] then [] else [LowerChar(s[0])] + Lower(s[1..])
  }

  /** Lower-casing a second time changes nothing. */
  lemma {:induction false} LowerIdempotent(s: string)
    ensures Lower(Lower(s)) == Lower(s)
  {
    var l := Lower(s);
    assert forall i | 0 <= i < |l| :: Lower(l)[i] == LowerChar(LowerChar(s[i])) == l[i];
  }

  // ---------------------------------------------------------------------------
  // sub in s
  // ---------------------------------------------------------------------------

  /** `sub` occurs in `s` starting at index `k`. */
  predicate OccursAt(sub: string, s: string, k: nat)
  {
    k + |sub| <= |s| && s[k..k + |sub|] == sub
  }

  /** Python's substring test `sub in s`. */
  predicate Contains(s: string, sub: string)
    ensures Contains(s, sub) ==> |sub| <= |s|
    ensures |sub| == |s| ==> (Contains(s, sub) <==> s == sub)
  {
    assert s == sub ==> OccursAt(sub, s, 0);
    exists k: nat | k <= |s| :: OccursAt(sub, s, k)
  }

  /** The empty string is a substring of every string. */
  lemma ContainsEmpty(s: string)
    ensures Contains(s, "")
  {
    assert OccursAt("", s, 0);
  }

  // ---------------------------------------------------------------------------
  // s.split('\n') and '\n'.join(pieces)
  // ---------------------------------------------------------------------------

  /** The number of occurrences of `c` in `s`. */
  function Count(s: string, c: char): (n: nat)
    ensures n <= |s|
    ensures n == 0 <==> c !in s
  {
    if s == [] then 0 else (if s[0] == c then 1 else 0) + Count(s[1..], c)
  }

  /** Puts character `c` in front of the text that split into `lines`. */
  function Prepend(c: char, lines: seq<string>): (r: seq<string>)
    requires lines != []
  {
    if c == '\n' then [""] + lines else [[c] + lines[0]] + lines[1..]
  }

  /**
   * `s.split('\n')`: the pieces between newlines, in order. As in Python there
   * is always one piece more than there are newlines, so "" splits into [""].
   */
  function Split(s: string): (lines: seq<string>)
    ensures |lines| == Count(s, '\n') + 1
    ensures forall j | 0 <= j < |lines| :: '\n' !in lines[j]
  {
    if s == [] then [""] else Prepend(s[0], Split(s[1..]))
  }

  /** `'\n'.join(pieces)`. */
  function Join(pieces: seq<string>): (text: string)
  {
    if pieces == [] then ""
    else if |pieces| == 1 then pieces[0]
    else pieces[0] + "\n" + Join(pieces[1..])
  }

  /** Prepending to a split distributes over the text after its first piece. */
  lemma PrependAppend(c: char, ra: seq<string>, rb: seq<string>)
    requires ra != []
    ensures Prepend(c, ra + rb) == Prepend(c, ra) + rb
  {
    if c != '\n' {
      assert (ra + rb)[1..] == ra[1..] + rb;
    }
  }

  /** Splitting text joined at a newline splits each side on its own. */
  lemma {:induction false} SplitAppend(a: string, b: string)
    ensures Split(a + "\n" + b) == Split(a) + Split(b)
  {
    var x := a + "\n" + b;
    if a == [] {
      assert x[1..] == b;
      assert Split(x) == Prepend('\n', Split(b));
    } else {
      assert x[0] == a[0] && x[1..] == a[1..] + "\n" + b;
      SplitAppend(a[1..], b);
      PrependAppend(a[0], Split(a[1..]), Split(b));
    }
  }

  /** A string without newlines splits into itself alone. */
  lemma {:induction false} SplitSingleLine(s: string)
    requires '\n' !in s
    ensures Split(s) == [s]
  {
    if s != [] {
      assert s[0] in s;
      assert forall c | c in s[1..] :: c in s;
      SplitSingleLine(s[1..]);
      assert Split(s) == Prepend(s[0], [s[1..]]);
      assert [s[0]] + s[1..] == s;
    }
  }

  /** Joining after a prepend is prepending the character to the join. */
  lemma JoinPrepend(c: char, rest: seq<string>)
    requires rest != []
    ensures Join(Prepend(c, rest)) == [c] + Join(rest)
  {
    if c == '\n' {
      assert ([""] + rest)[1..] == rest;
    } else if |rest| > 1 {
      var first := [c] + rest[0];
      assert ([first] + rest[1..])[1..] == rest[1..];
    }
  }

  /** Joining the pieces of a split gives back the original text. */
  lemma {:induction false} JoinSplit(s: string)
    ensures Join(Split(s)) == s
  {
    if s != [] {
      JoinSplit(s[1..]);
      JoinPrepend(s[0], Split(s[1..]));
      assert s == [s[0]] + s[1..];
    }
  }

  /** Splitting newline-free pieces joined with newlines gives back the pieces. */
  lemma {:induction false} SplitJoin(pieces: seq<string>)
    requires pieces != []
    requires forall j | 0 <= j < |pieces| :: '\n' !in pieces[j]
    ensures Split(Join(pieces)) == pieces
  {
    SplitSingleLine(pieces[0]);
    if |pieces| > 1 {
      SplitJoin(pieces[1..]);
      SplitAppend(pieces[0], Join(pieces[1..]));
      assert [pieces[0]] + pieces[1..] == pieces;
    }
  }

  // ---------------------------------------------------------------------------
  // s.strip()
  // ---------------------------------------------------------------------------

  /** Python's `str.isspace()` on one character: the characters `str.strip()` removes. */
  predicate IsSpace(c: char)
  {
    || c == ' '
    || '\U{9}' <= c <= '\U{D}'
    || '\U{1C}' <= c <= '\U{1F}'
    || c == '\U{85}' || c == '\U{A0}' || c == '\U{1680}'
    || '\U{2000}' <= c <= '\U{200A}'
    || c == '\U{2028}' || c == '\U{2029}' || c == '\U{202F}' || c == '\U{205F}'
    || c == '\U{3000}'
  }

  /** `s.lstrip()`: the longest suffix of `s` that does not start with whitespace. */
  function StripLeft(s: string): (r: string)
    ensures |r| <= |s| && r == s[|s| - |r|..]
    ensures forall k | 0 <= k < |s| - |r| :: IsSpace(s[k])
    ensures r == [] || !IsSpace(r[0])
  {
    if s != [] && IsSpace(s[0]) then StripLeft(s[1..]) else s
  }

  /** `s.rstrip()`: the longest prefix of `s` that does not end with whitespace. */
  function StripRight(s: string): (r: string)
    ensures |r| <= |s| && r == s[..|r|]
    ensures forall k | |r| <= k < |s| :: IsSpace(s[k])
    ensures r == [] || !IsSpace(r[|r| - 1])
  {
    if s != [] && IsSpace(s[|s| - 1]) then StripRight(s[..|s| - 1]) else s
  }

  /** `r` is `s` with only whitespace removed before index `i` and after `r`. */
  predicate IsTrimOf(s: string, r: string, i: nat)
  {
    && i + |r| <= |s|
    && r == s[i..i + |r|]
    && (forall k | 0 <= k < i :: IsSpace(s[k]))
    && (forall k | i + |r| <= k < |s| :: IsSpace(s[k]))
  }

  /**
   * `r` is `s` with all of its leading and trailing whitespace removed: a slice
   * of `s` with only whitespace around it, neither starting nor ending with
   * whitespace itself.
   */
  predicate IsStripOf(s: string, r: string)
  {
    && (exists i: nat | i <= |s| :: IsTrimOf(s, r, i))
    && (r == [] || (!IsSpace(r[0]) && !IsSpace(r[|r| - 1])))
  }

  /** `s.strip()`: `s` without its leading and trailing whitespace. */
  function Strip(s: string): (r: string)
    ensures IsStripOf(s, r)
  {
    var t := StripLeft(s);
    var r := StripRight(t);
    assert IsTrimOf(s, r, |s| - |t|);
    r
  }

  /** At most one string is the strip of `s`, so `IsStripOf` fixes the result of `Strip`. */
  lemma StripOfUnique(s: string, r1: string, r2: string)
    requires IsStripOf(s, r1) && IsStripOf(s, r2)
    ensures r1 == r2
  {
    var i1: nat :| i1 <= |s| && IsTrimOf(s, r1, i1);
    var i2: nat :| i2 <= |s| && IsTrimOf(s, r2, i2);
    if r1 != [] {
      assert s[i1] == r1[0];
      assert s[i1 + |r1| - 1] == r1[|r1| - 1];
    }
    if r2 != [] {
      assert s[i2] == r2[0];
      assert s[i2 + |r2| - 1] == r2[|r2| - 1];
    }
  }

  /** Stripping a second time changes nothing. */
  lemma StripIdempotent(s: string)
    ensures Strip(Strip(s)) == Strip(s)
  {
    var r := Strip(s);
    assert StripLeft(r) == r;
    assert StripRight(r) == r;
  }

  // ---------------------------------------------------------------------------
  // s[n:] and s.startswith(prefix)
  // ---------------------------------------------------------------------------

  /** The slice `s[n:]` for `n >= 0`: empty once `n` passes the end. */
  function SliceFrom(s: string, n: nat): (r: string)
    ensures |r| == if n <= |s| then |s| - n else 0
    ensures s[..|s| - |r|] + r == s
  {
    if n <= |s| then s[n..] else ""
  }

  /** `s.startswith(prefix)`. */
  predicate StartsWith(s: string, prefix: string)
    ensures StartsWith(s, prefix) <==> |prefix| <= |s| && s == prefix + s[|prefix|..]
  {
    |prefix| <= |s| && s[..|prefix|] == prefix
  }
}
