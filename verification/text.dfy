/** String helpers the gallery's search relies on: the whitespace trim used as
    the emptiness test for the search box, and substring containment
    (`String.prototype.includes`). Case folding is not defined here: the
    search takes it as a parameter. */
module Text {

  /** The characters `String.prototype.trim` strips: the WhiteSpace and
      LineTerminator code points of the ECMAScript language specification. */
  predicate IsWhitespace(c: char) {
    || c == '\t' || c == '\n' || c == '\U{000B}' || c == '\U{000C}' || c == '\r'
    || c == ' ' || c == '\U{00A0}' || c == '\U{1680}'
    || ('\U{2000}' <= c <= '\U{200A}')
    || c == '\U{2028}' || c == '\U{2029}' || c == '\U{202F}' || c == '\U{205F}'
    || c == '\U{3000}' || c == '\U{FEFF}'
  }

  /** Every character of `s` is whitespace (vacuously true of ""). */
  predicate Blank(s: string) {
    forall i :: 0 <= i < |s| ==> IsWhitespace(s[i])
  }

  /** `s` with its leading whitespace removed. */
  function TrimStart(s: string): (r: string)
    ensures |r| <= |s| && r == s[|s| - |r|..]
    ensures forall i :: 0 <= i < |s| - |r| ==> IsWhitespace(s[i])
    ensures r != [] ==> !IsWhitespace(r[0])
    decreases |s|
  {
    if s != [] && IsWhitespace(s[0]) then TrimStart(s[1..]) else s
  }

  /** `s` with its trailing whitespace removed. */
  function TrimEnd(s: string): (r: string)
    ensures |r| <= |s| && r == s[..|r|]
    ensures forall i :: |r| <= i < |s| ==> IsWhitespace(s[i])
    ensures r != [] ==> !IsWhitespace(r[|r| - 1])
    decreases |s|
  {
    if s != [] && IsWhitespace(s[|s| - 1]) then TrimEnd(s[..|s| - 1]) else s
  }

  /** `String.prototype.trim`: both ends stripped. The result is a slice of
      `s` with no whitespace at either end and only whitespace before and
      after it, and it is empty exactly when `s` is whitespace only, so
      `!text.trim()` is the test "nothing but whitespace was typed". */
  function Trim(s: string): (r: string)
    ensures r == "" <==> Blank(s)
    ensures r != [] ==> !IsWhitespace(r[0]) && !IsWhitespace(r[|r| - 1])
    ensures exists k :: OccursAt(s, r, k) && Blank(s[..k]) && Blank(s[k + |r|..])
  {
    TrimAround(s);
    TrimEnds(s);
    TrimBlank(s);
    TrimEnd(TrimStart(s))
  }

  /** Both trims keep a slice of `s` with only whitespace before and after
      it. */
  lemma TrimAround(s: string)
    ensures exists k :: && OccursAt(s, TrimEnd(TrimStart(s)), k)
                        && Blank(s[..k])
                        && Blank(s[k + |TrimEnd(TrimStart(s))|..])
  {
    var t := TrimStart(s);
    PaddedSlice(s, t, TrimEnd(t), |s| - |t|);
  }

  /** Both trims leave no whitespace at either end of what they keep. */
  lemma TrimEnds(s: string)
    ensures var r := TrimEnd(TrimStart(s));
      r != [] ==> !IsWhitespace(r[0]) && !IsWhitespace(r[|r| - 1])
  {
  }

  /** A prefix `r` of the suffix `t` of `s` that starts at `k` is a slice of
      `s` at `k`; whitespace cut from either end is whitespace around it. */
  lemma PaddedSlice(s: string, t: string, r: string, k: int)
    requires 0 <= k <= |s| && t == s[k..] && |r| <= |t| && r == t[..|r|]
    requires forall i :: 0 <= i < k ==> IsWhitespace(s[i])
    requires forall i :: |r| <= i < |t| ==> IsWhitespace(t[i])
    ensures OccursAt(s, r, k) && Blank(s[..k]) && Blank(s[k + |r|..])
  {
  }

  /** Both trims leave nothing exactly when the text is blank. */
  lemma TrimBlank(s: string)
    ensures TrimEnd(TrimStart(s)) == "" <==> Blank(s)
  {
  }

  /** `t` is a prefix of `s`. */
  predicate StartsWith(s: string, t: string) {
    |t| <= |s| && s[..|t|] == t
  }

  /** `s.includes(t)`: `t` occurs in `s` starting at some position. */
  predicate Contains(s: string, t: string)
    decreases |s|
  {
    StartsWith(s, t) || (s != [] && Contains(s[1..], t))
  }

  /** `t` occurs in `s` at position `i`. */
  predicate OccursAt(s: string, t: string, i: int) {
    0 <= i <= |s| - |t| && s[i..i + |t|] == t
  }

  /** Containment agrees with its positional definition: `t` occurs in `s` at
      some position. */
  lemma {:induction false} ContainsIffOccurs(s: string, t: string)
    ensures Contains(s, t) <==> exists i :: OccursAt(s, t, i)
    decreases |s|
  {
    if s == [] {
      if Contains(s, t) {
        assert OccursAt(s, t, 0);
      }
    } else {
      ContainsIffOccurs(s[1..], t);
      if Contains(s, t) {
        if StartsWith(s, t) {
          assert OccursAt(s, t, 0);
        } else {
          var i :| OccursAt(s[1..], t, i);
          assert s[1..][i..i + |t|] == s[i + 1..i + 1 + |t|];
          assert OccursAt(s, t, i + 1);
        }
      } else {
        forall i
          ensures !OccursAt(s, t, i)
        {
          if i == 0 && |t| <= |s| {
            assert s[0..|t|] == s[..|t|];
          } else if 0 < i <= |s| - |t| {
            assert !OccursAt(s[1..], t, i - 1);
            assert s[1..][i - 1..i - 1 + |t|] == s[i..i + |t|];
          }
        }
      }
    }
  }
}
