/** Python's `str.strip()` with no argument: remove whitespace from both ends. */
module Text {

  /** The characters for which Python's `str.isspace()` holds: tab, line feed,
      vertical tab, form feed, carriage return, the four information
      separators, space, next line, no-break space, and the Unicode space
      separators and line and paragraph separators. */
  const SpaceChars: set<char> := {
    '\t', '\n', '\U{0B}', '\U{0C}', '\r',
    '\U{1C}', '\U{1D}', '\U{1E}', '\U{1F}',
    ' ', '\U{85}', '\U{A0}', '\U{1680}',
    '\U{2000}', '\U{2001}', '\U{2002}', '\U{2003}', '\U{2004}', '\U{2005}',
    '\U{2006}', '\U{2007}', '\U{2008}', '\U{2009}', '\U{200A}',
    '\U{2028}', '\U{2029}', '\U{202F}', '\U{205F}', '\U{3000}'
  }

  predicate IsSpace(c: char) {
    c in SpaceChars
  }

  /** Every character of s[lo..hi] is whitespace. */
  ghost predicate SpaceBetween(s: string, lo: int, hi: int)
    requires 0 <= lo <= hi <= |s|
  {
    forall k :: lo <= k < hi ==> IsSpace(s[k])
  }

  /** Neither end of `s` is whitespace. */
  ghost predicate Trimmed(s: string) {
    s == [] || (!IsSpace(s[0]) && !IsSpace(s[|s| - 1]))
  }

  /** `s.lstrip()` */
  function StripStart(s: string): string {
    if s != [] && IsSpace(s[0]) then StripStart(s[1..]) else s
  }

  /** `s.rstrip()` */
  function StripEnd(s: string): string {
    if s != [] && IsSpace(s[|s| - 1]) then StripEnd(s[..|s| - 1]) else s
  }

  /** `s.strip()` */
  function Strip(s: string): string {
    StripEnd(StripStart(s))
  }

  /** lstrip drops a whitespace prefix and stops at the first other character. */
  lemma {:induction false} StripStartIsSuffix(s: string)
    ensures var r := StripStart(s);
      |r| <= |s| && r == s[|s| - |r|..] && SpaceBetween(s, 0, |s| - |r|)
      && (r == [] || !IsSpace(r[0]))
  {
    if s != [] && IsSpace(s[0]) {
      StripStartIsSuffix(s[1..]);
    }
  }

  /** rstrip drops a whitespace suffix and stops at the last other character. */
  lemma {:induction false} StripEndIsPrefix(s: string)
    ensures var r := StripEnd(s);
      |r| <= |s| && r == s[..|r|] && SpaceBetween(s, |r|, |s|)
      && (r == [] || !IsSpace(r[|r| - 1]))
  {
    if s != [] && IsSpace(s[|s| - 1]) {
      StripEndIsPrefix(s[..|s| - 1]);
    }
  }

  /** Strip removes whitespace from the two ends of `s` and nothing else, and
      what is left has no whitespace end. */
  lemma StripIsSlice(s: string)
    ensures Trimmed(Strip(s))
    ensures exists i :: 0 <= i <= |s| - |Strip(s)| && s[i..i + |Strip(s)|] == Strip(s)
                        && SpaceBetween(s, 0, i) && SpaceBetween(s, i + |Strip(s)|, |s|)
  {
    var t := StripStart(s);
    var r := StripEnd(t);
    StripStartIsSuffix(s);
    StripEndIsPrefix(t);
    var i := |s| - |t|;
    assert r == s[i..i + |r|];
    if r != [] {
      assert r[0] == t[0];
    }
    forall k | i + |r| <= k < |s|
      ensures IsSpace(s[k])
    {
      assert s[k] == t[k - i];
    }
  }

  /** Stripping twice is the same as stripping once. */
  lemma StripIdempotent(s: string)
    ensures Strip(Strip(s)) == Strip(s)
  {
    StripIsSlice(s);
    TrimmedStripsToItself(Strip(s));
  }

  /** A string with no whitespace ends is its own strip. */
  lemma TrimmedStripsToItself(s: string)
    requires Trimmed(s)
    ensures Strip(s) == s
  {
  }

  /** A blank-padded column value (a CHAR(n) column pads with spaces) strips
      back to the text that was written, when that text had no whitespace ends. */
  lemma StripRemovesPadding(h: string, pad: string)
    requires Trimmed(h) && SpaceBetween(pad, 0, |pad|)
    ensures Strip(h + pad) == h
  {
    if h == [] {
      assert h + pad == pad;
      AllSpaceStripsAway(pad);
    } else {
      assert (h + pad)[0] == h[0];
      PaddingStripsOff(h, pad);
    }
  }

  /** A string made only of whitespace strips to the empty string. */
  lemma {:induction false} AllSpaceStripsAway(s: string)
    requires SpaceBetween(s, 0, |s|)
    ensures StripStart(s) == []
  {
    if s != [] {
      AllSpaceStripsAway(s[1..]);
    }
  }

  /** rstrip removes exactly the padding after text ending in a non-space. */
  lemma {:induction false} PaddingStripsOff(h: string, pad: string)
    requires h != [] && !IsSpace(h[|h| - 1]) && SpaceBetween(pad, 0, |pad|)
    ensures StripEnd(h + pad) == h
  {
    var s := h + pad;
    if pad == [] {
      assert s == h;
    } else {
      var shorter := pad[..|pad| - 1];
      assert s[..|s| - 1] == h + shorter;
      PaddingStripsOff(h, shorter);
    }
  }
}
