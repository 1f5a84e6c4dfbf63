/**
 * The choice `get_input` makes once the line has been read: the line with
 * surrounding whitespace stripped if anything is left, otherwise the caller's
 * default. Reading the line is left to the caller.
 */
module InputDefault {

  /** The whitespace `str.strip()` removes, restricted to ASCII. */
  predicate IsSpace(c: char) {
    c == ' ' || c == '\t' || c == '\n' || c == '\r' || c == '\U{000B}' || c == '\U{000C}'
  }

  predicate AllSpace(s: string) {
    forall i :: 0 <= i < |s| ==> IsSpace(s[i])
  }

  function StripLeading(s: string): string
  {
    if s != [] && IsSpace(s[0]) then StripLeading(s[1..]) else s
  }

  function StripTrailing(s: string): string
  {
    if s != [] && IsSpace(s[|s| - 1]) then StripTrailing(s[..|s| - 1]) else s
  }

  /** `s.strip()`. */
  function Strip(s: string): string
  {
    StripTrailing(StripLeading(s))
  }

  /** `get_input`'s result for the line read and the default. */
  function ChooseInput(line: string, default: string): (r: string)
    ensures AllSpace(line) ==> r == default
    ensures !AllSpace(line) ==> r != [] && !IsSpace(r[0]) && !IsSpace(r[|r| - 1])
    ensures !AllSpace(line) ==>
      exists i :: 0 <= i <= |line| - |r| && AllSpace(line[..i]) &&
        r == line[i..i + |r|] && AllSpace(line[i + |r|..])
  {
    StripSpec(line);
    var v := Strip(line);
    if v != [] then v else default
  }

  lemma {:induction false} StripLeadingSpec(s: string)
    ensures |StripLeading(s)| <= |s|
    ensures StripLeading(s) == s[|s| - |StripLeading(s)|..]
    ensures AllSpace(s[..|s| - |StripLeading(s)|])
    ensures StripLeading(s) != [] ==> !IsSpace(StripLeading(s)[0])
  {
    if s != [] && IsSpace(s[0]) {
      StripLeadingSpec(s[1..]);
      var n := |s| - |StripLeading(s)|;
      assert s[..n] == [s[0]] + s[1..][..n - 1];
    }
  }

  lemma {:induction false} StripTrailingSpec(s: string)
    ensures |StripTrailing(s)| <= |s|
    ensures StripTrailing(s) == s[..|StripTrailing(s)|]
    ensures AllSpace(s[|StripTrailing(s)|..])
    ensures StripTrailing(s) != [] ==> !IsSpace(StripTrailing(s)[|StripTrailing(s)| - 1])
  {
    if s != [] && IsSpace(s[|s| - 1]) {
      var t := s[..|s| - 1];
      StripTrailingSpec(t);
      var n := |StripTrailing(s)|;
      assert s[n..] == t[n..] + [s[|s| - 1]];
    }
  }

  /**
   * `s.strip()` is a slice of `s` with only whitespace cut from either end,
   * and it neither begins nor ends with whitespace.
   */
  lemma StripSpec(s: string)
    ensures AllSpace(s) <==> Strip(s) == []
    ensures Strip(s) != [] ==> !IsSpace(Strip(s)[0]) && !IsSpace(Strip(s)[|Strip(s)| - 1])
    ensures exists i ::
      0 <= i <= |s| - |Strip(s)| && AllSpace(s[..i]) &&
      Strip(s) == s[i..i + |Strip(s)|] && AllSpace(s[i + |Strip(s)|..])
  {
    var l := StripLeading(s);
    StripLeadingSpec(s);
    StripTrailingSpec(l);
    var r := Strip(s);
    var i := |s| - |l|;
    assert r == l[..|r|];
    assert l[|r|..] == s[i + |r|..];
    assert r == s[i..i + |r|];
    if r != [] {
      assert r[0] == l[0];
    }
    if r == [] {
      forall k | 0 <= k < |s| ensures IsSpace(s[k]) {
        assert s[..i][k] == s[k];
      }
    }
  }

  /** Stripping twice is stripping once. */
  lemma StripIdempotent(s: string)
    ensures Strip(Strip(s)) == Strip(s)
  {
    StripSpec(s);
    var r := Strip(s);
    if r != [] {
      assert StripLeading(r) == r;
      assert StripTrailing(r) == r;
    }
  }

  /** A blank or empty line gives the default; any other line gives a non-empty answer. */
  lemma ChooseInputDefault(line: string, default: string)
    ensures ChooseInput(line, default) == default <==> AllSpace(line) || Strip(line) == default
    ensures ChooseInput(line, default) == [] <==> AllSpace(line) && default == []
  {
    StripSpec(line);
  }
}
