/** The two JavaScript string operations the pages depend on: `trim()`, which
    the add guard uses, and `length`, which counts UTF-16 code units and which
    the password checks compare against. A Dafny `char` is a Unicode scalar
    value, so both are written out here. */
module JsText {
  import opened Seqs

  /** The WhiteSpace and LineTerminator code points of ECMAScript outside the
      run U+2000..U+200A. */
  const JsSpaceChars: set<char> := {
    '\t', '\n', '\U{B}', '\U{C}', '\r', ' ', '\U{A0}', '\U{1680}',
    '\U{2028}', '\U{2029}', '\U{202F}', '\U{205F}', '\U{3000}', '\U{FEFF}'
  }

  /** The WhiteSpace and LineTerminator code points of ECMAScript, which is
      what `String.prototype.trim` strips from both ends. */
  predicate IsJsSpace(c: char) {
    c in JsSpaceChars || '\U{2000}' <= c <= '\U{200A}'
  }

  /** `s` with its leading white space removed. */
  function TrimStart(s: string): (r: string)
    ensures |r| <= |s| && r == s[|s| - |r|..]
    ensures forall k :: 0 <= k < |s| - |r| ==> IsJsSpace(s[k])
    ensures r != [] ==> !IsJsSpace(r[0])
    decreases |s|
  {
    if s != [] && IsJsSpace(s[0]) then TrimStart(s[1..]) else s
  }

  /** `s` with its trailing white space removed. */
  function TrimEnd(s: string): (r: string)
    ensures |r| <= |s| && r == s[..|r|]
    ensures forall k :: |r| <= k < |s| ==> IsJsSpace(s[k])
    ensures r != [] ==> !IsJsSpace(r[|r| - 1])
    decreases |s|
  {
    if s != [] && IsJsSpace(s[|s| - 1]) then TrimEnd(s[..|s| - 1]) else s
  }

  /** `s.trim()`: what is left once white space is stripped from both ends.
      It is empty exactly when `s` is all white space, and otherwise starts
      and ends with a character that is not white space. */
  function Trim(s: string): (r: string)
    ensures r == [] <==> forall k :: 0 <= k < |s| ==> IsJsSpace(s[k])
    ensures r != [] ==> IsTrimmed(r)
  {
    TrimmedEnds(s);
    TrimEnd(TrimStart(s))
  }

  /** Non-empty, and neither starting nor ending with white space. */
  predicate IsTrimmed(t: string) {
    t != [] && !IsJsSpace(t[0]) && !IsJsSpace(t[|t| - 1])
  }

  /** The facts behind `Trim`'s contract, about the run that `TrimStart` and
      `TrimEnd` leave. */
  lemma TrimmedEnds(s: string)
    ensures TrimEnd(TrimStart(s)) == [] <==> forall k :: 0 <= k < |s| ==> IsJsSpace(s[k])
    ensures var r := TrimEnd(TrimStart(s)); r != [] ==> !IsJsSpace(r[0]) && !IsJsSpace(r[|r| - 1])
  {
    var front := TrimStart(s);
    var r := TrimEnd(front);
    var i := |s| - |front|;
    if r != [] {
      assert r[0] == front[0] == s[i];
      assert !IsJsSpace(r[0]);
    }
  }

  /** The trimmed text is the run of `s` that starts where the leading white
      space ends: it is `s[i..i + |Trim(s)|]` for that `i`. */
  lemma TrimKeepsMiddle(s: string)
    ensures var i := |s| - |TrimStart(s)|;
      i + |Trim(s)| <= |s| && Trim(s) == s[i..i + |Trim(s)|]
  {
    var front := TrimStart(s);
    var r := TrimEnd(front);
    var i := |s| - |front|;
    assert front == s[i..];
    assert r == front[..|r|];
  }

  /** Everything `Trim` removes is white space: the characters before the run
      it keeps and the characters after it. */
  lemma TrimRemovesOnlySpace(s: string)
    ensures var i := |s| - |TrimStart(s)|;
      (forall k :: 0 <= k < i ==> IsJsSpace(s[k])) &&
      (forall k :: i + |Trim(s)| <= k < |s| ==> IsJsSpace(s[k]))
  {
    var front := TrimStart(s);
    var r := TrimEnd(front);
    var i := |s| - |front|;
    assert front == s[i..];
    forall k | i + |r| <= k < |s|
      ensures IsJsSpace(s[k])
    {
      assert s[k] == front[k - i];
    }
  }

  /** `Trim` is the only way of cutting white space from the two ends of `s`
      that leaves a run which is empty or neither starts nor ends with white
      space: any such run `s[i..j]` is `Trim(s)`. */
  lemma TrimUnique(s: string, i: nat, j: nat)
    requires i <= j <= |s|
    requires forall k :: 0 <= k < i ==> IsJsSpace(s[k])
    requires forall k :: j <= k < |s| ==> IsJsSpace(s[k])
    requires i < j ==> !IsJsSpace(s[i]) && !IsJsSpace(s[j - 1])
    ensures Trim(s) == s[i..j]
  {
    TrimKeepsMiddle(s);
    TrimRemovesOnlySpace(s);
    var r := Trim(s);
    var i0 := |s| - |TrimStart(s)|;
    if i == j {
      forall k | 0 <= k < |s| ensures IsJsSpace(s[k]) {
        if k >= i {
          assert k >= j;
        }
      }
    } else {
      assert !IsJsSpace(s[i]) && !IsJsSpace(s[j - 1]);
      assert r != [];
      assert !IsJsSpace(s[i0]) && !IsJsSpace(s[i0 + |r| - 1]);
      assert i0 == i && i0 + |r| == j;
    }
  }

  /** A code point above U+FFFF, which UTF-16 encodes as a surrogate pair. */
  predicate IsAstral(c: char) {
    c as int > 0xFFFF
  }

  /** `s.length`: the number of UTF-16 code units of `s`; a code point above
      U+FFFF takes two (a surrogate pair). */
  function Utf16Length(s: string): (n: nat)
    ensures |s| <= n <= 2 * |s|
    ensures n == 0 <==> s == []
    decreases |s|
  {
    if s == [] then 0
    else (if IsAstral(s[0]) then 2 else 1) + Utf16Length(s[1..])
  }

  /** The exact count: one unit per character, plus one more for each
      character above U+FFFF. */
  lemma {:induction false} Utf16LengthCounts(s: string)
    ensures Utf16Length(s) == |s| + |Filter(s, IsAstral)|
    decreases |s|
  {
    if s != [] {
      Utf16LengthCounts(s[1..]);
    }
  }

  /** On text without astral code points, `length` is the number of characters. */
  lemma Utf16LengthOfBmp(s: string)
    requires forall k :: 0 <= k < |s| ==> !IsAstral(s[k])
    ensures Utf16Length(s) == |s|
  {
    Utf16LengthCounts(s);
    FilterNone(s, IsAstral);
  }
}
