/**
 * `latex_escape`: nine whole-string `str.replace` passes, applied one after
 * another in the order of the replacement dictionary. Each pass sees the
 * text the earlier passes inserted, and because the backslash rule comes
 * last, every backslash those passes inserted is rewritten again.
 *
 * `Escaped` is that fold; `EscapeByChar` is an independent, per-character
 * description of the same function, and `EscapedIsByChar` proves the two
 * agree. The properties of the escaper are then proved from the
 * per-character form.
 */
module Escaper {
  import opened Values

  /** The replacement dictionary, in insertion order. */
  const Table: seq<(char, string)> := [
    ('&', "\\&"),
    ('%', "\\%"),
    ('$', "\\$"),
    ('#', "\\#"),
    ('_', "\\_"),
    ('{', "\\{"),
    ('}', "\\}"),
    ('~', "\\textasciitilde{}"),
    ('\\', "\\textbackslash{}")
  ]

  /** The characters the dictionary has a rule for. */
  const Specials: set<char> := {'&', '%', '$', '#', '_', '{', '}', '~', '\\'}

  /** What every backslash in the output is the start of. */
  const Backslash: string := "\\textbackslash{}"

  /** `s.replace(k, v)` for a one-character `k`: every occurrence, left to right. */
  function Replace(s: string, k: char, v: string): string
  {
    if s == [] then [] else (if s[0] == k then v else [s[0]]) + Replace(s[1..], k, v)
  }

  /** The passes of `rules`, the first rule first, each on the whole current string. */
  function Passes(s: string, rules: seq<(char, string)>): string
    decreases |rules|
  {
    if rules == [] then s else Passes(Replace(s, rules[0].0, rules[0].1), rules[1..])
  }

  /** `latex_escape` on a string. */
  function Escaped(s: string): string
  {
    Passes(s, Table)
  }

  /**
   * `latex_escape`: a non-string comes back unchanged; a string goes through
   * the nine passes in the dictionary's order.
   */
  method LatexEscape(v: Value) returns (r: Value)
    ensures !v.Str? ==> r == v
    ensures v.Str? ==> r.Str? && r.s == Escaped(v.s)
  {
    if !v.Str? {
      return v;
    }
    var s := v.s;
    for i := 0 to |Table|
      invariant Passes(s, Table[i..]) == Escaped(v.s)
    {
      assert Table[i..][1..] == Table[i + 1..];
      s := Replace(s, Table[i].0, Table[i].1);
    }
    return Str(s);
  }

  // ----- the per-character description -----

  /**
   * What the nine passes make of a single character. A rule's own output
   * goes through every later rule, so each inserted backslash turns into
   * `\textbackslash{}`; the braces of `\textasciitilde{}` are inserted after
   * the brace rules have run, so they stay as they are.
   */
  function CharEscape(c: char): string
  {
    match c
    case '&' => Backslash + "&"
    case '%' => Backslash + "%"
    case '$' => Backslash + "$"
    case '#' => Backslash + "#"
    case '_' => Backslash + "_"
    case '{' => Backslash + "{"
    case '}' => Backslash + "}"
    case '~' => Backslash + "textasciitilde{}"
    case '\\' => Backslash
    case _ => [c]
  }

  /** Escaping as one left-to-right walk that rewrites each character on its own. */
  function EscapeByChar(s: string): string
  {
    if s == [] then [] else CharEscape(s[0]) + EscapeByChar(s[1..])
  }

  lemma {:induction false} ReplaceConcat(a: string, b: string, k: char, v: string)
    ensures Replace(a + b, k, v) == Replace(a, k, v) + Replace(b, k, v)
  {
    if a != [] {
      assert (a + b)[1..] == a[1..] + b;
      ReplaceConcat(a[1..], b, k, v);
    } else {
      assert a + b == b;
    }
  }

  lemma {:induction false} PassesConcat(a: string, b: string, rules: seq<(char, string)>)
    ensures Passes(a + b, rules) == Passes(a, rules) + Passes(b, rules)
    decreases |rules|
  {
    if rules != [] {
      ReplaceConcat(a, b, rules[0].0, rules[0].1);
      PassesConcat(Replace(a, rules[0].0, rules[0].1), Replace(b, rules[0].0, rules[0].1), rules[1..]);
    }
  }

  /** A replace whose key does not occur changes nothing. */
  lemma {:induction false} ReplaceAbsent(s: string, k: char, v: string)
    requires k !in s
    ensures Replace(s, k, v) == s
  {
    if s != [] {
      ReplaceAbsent(s[1..], k, v);
    }
  }

  lemma PassesFrom(s: string, i: nat)
    requires i < |Table|
    ensures Passes(s, Table[i..]) == Passes(Replace(s, Table[i].0, Table[i].1), Table[i + 1..])
  {
    assert Table[i..][1..] == Table[i + 1..];
  }

  /** The first four passes of the fold. */
  lemma PassesChainHead(s0: string, s1: string, s2: string, s3: string, s4: string)
    requires s1 == Replace(s0, '&', "\\&")
    requires s2 == Replace(s1, '%', "\\%")
    requires s3 == Replace(s2, '$', "\\$")
    requires s4 == Replace(s3, '#', "\\#")
    ensures Passes(s0, Table) == Passes(s4, Table[4..])
  {
    assert Table[0..] == Table;
    PassesFrom(s0, 0);
    PassesFrom(s1, 1);
    PassesFrom(s2, 2);
    PassesFrom(s3, 3);
  }

  /** The last five passes of the fold. */
  lemma PassesChainTail(s4: string, s5: string, s6: string, s7: string, s8: string, s9: string)
    requires s5 == Replace(s4, '_', "\\_")
    requires s6 == Replace(s5, '{', "\\{")
    requires s7 == Replace(s6, '}', "\\}")
    requires s8 == Replace(s7, '~', "\\textasciitilde{}")
    requires s9 == Replace(s8, '\\', Backslash)
    ensures Passes(s4, Table[4..]) == s9
  {
    PassesFrom(s4, 4);
    PassesFrom(s5, 5);
    PassesFrom(s6, 6);
    PassesFrom(s7, 7);
    PassesFrom(s8, 8);
    assert Table[9..] == [];
  }

  /** The fold over the dictionary as nine replaces, one after another. */
  lemma PassesChain(s0: string, s1: string, s2: string, s3: string, s4: string,
                    s5: string, s6: string, s7: string, s8: string, s9: string)
    requires s1 == Replace(s0, '&', "\\&")
    requires s2 == Replace(s1, '%', "\\%")
    requires s3 == Replace(s2, '$', "\\$")
    requires s4 == Replace(s3, '#', "\\#")
    requires s5 == Replace(s4, '_', "\\_")
    requires s6 == Replace(s5, '{', "\\{")
    requires s7 == Replace(s6, '}', "\\}")
    requires s8 == Replace(s7, '~', "\\textasciitilde{}")
    requires s9 == Replace(s8, '\\', Backslash)
    ensures Passes(s0, Table) == s9
  {
    PassesChainHead(s0, s1, s2, s3, s4);
    PassesChainTail(s4, s5, s6, s7, s8, s9);
  }

  lemma ReplaceOne(c: char, k: char, v: string)
    ensures Replace([c], k, v) == if c == k then v else [c]
  {
    assert [c][1..] == [];
  }

  /** A character without a rule comes through all nine passes unchanged. */
  lemma PassesPlain(c: char)
    requires c !in Specials
    ensures Passes([c], Table) == [c]
  {
    ReplaceOne(c, '&', "\\&");
    ReplaceOne(c, '%', "\\%");
    ReplaceOne(c, '$', "\\$");
    ReplaceOne(c, '#', "\\#");
    ReplaceOne(c, '_', "\\_");
    ReplaceOne(c, '{', "\\{");
    ReplaceOne(c, '}', "\\}");
    ReplaceOne(c, '~', "\\textasciitilde{}");
    ReplaceOne(c, '\\', Backslash);
    PassesChain([c], [c], [c], [c], [c], [c], [c], [c], [c], [c]);
  }

  /** The backslash pass on a backslash followed by a character other than a backslash. */
  lemma LastPassPair(c: char)
    requires c != '\\'
    ensures Replace(['\\', c], '\\', Backslash) == Backslash + [c]
  {
    assert ['\\', c] == ['\\'] + [c];
    ReplaceConcat(['\\'], [c], '\\', Backslash);
    ReplaceOne('\\', '\\', Backslash);
    ReplaceOne(c, '\\', Backslash);
  }

  lemma PassesAmpersand(c: char)
    requires c == '&'
    ensures Passes([c], Table) == CharEscape(c)
  {
    ReplaceOne(c, '&', "\\&");
    ReplaceAbsent(['\\', c], '%', "\\%");
    ReplaceAbsent(['\\', c], '$', "\\$");
    ReplaceAbsent(['\\', c], '#', "\\#");
    ReplaceAbsent(['\\', c], '_', "\\_");
    ReplaceAbsent(['\\', c], '{', "\\{");
    ReplaceAbsent(['\\', c], '}', "\\}");
    ReplaceAbsent(['\\', c], '~', "\\textasciitilde{}");
    LastPassPair(c);
    PassesChain([c], ['\\', c], ['\\', c], ['\\', c], ['\\', c], ['\\', c], ['\\', c], ['\\', c], ['\\', c], Backslash + [c]);
  }

  lemma PassesPercent(c: char)
    requires c == '%'
    ensures Passes([c], Table) == CharEscape(c)
  {
    ReplaceOne(c, '&', "\\&");
    ReplaceOne(c, '%', "\\%");
    ReplaceAbsent(['\\', c], '$', "\\$");
    ReplaceAbsent(['\\', c], '#', "\\#");
    ReplaceAbsent(['\\', c], '_', "\\_");
    ReplaceAbsent(['\\', c], '{', "\\{");
    ReplaceAbsent(['\\', c], '}', "\\}");
    ReplaceAbsent(['\\', c], '~', "\\textasciitilde{}");
    LastPassPair(c);
    PassesChain([c], [c], ['\\', c], ['\\', c], ['\\', c], ['\\', c], ['\\', c], ['\\', c], ['\\', c], Backslash + [c]);
  }

  lemma PassesDollar(c: char)
    requires c == '$'
    ensures Passes([c], Table) == CharEscape(c)
  {
    ReplaceOne(c, '&', "\\&");
    ReplaceOne(c, '%', "\\%");
    ReplaceOne(c, '$', "\\$");
    ReplaceAbsent(['\\', c], '#', "\\#");
    ReplaceAbsent(['\\', c], '_', "\\_");
    ReplaceAbsent(['\\', c], '{', "\\{");
    ReplaceAbsent(['\\', c], '}', "\\}");
    ReplaceAbsent(['\\', c], '~', "\\textasciitilde{}");
    LastPassPair(c);
    PassesChain([c], [c], [c], ['\\', c], ['\\', c], ['\\', c], ['\\', c], ['\\', c], ['\\', c], Backslash + [c]);
  }

  lemma PassesHash(c: char)
    requires c == '#'
    ensures Passes([c], Table) == CharEscape(c)
  {
    ReplaceOne(c, '&', "\\&");
    ReplaceOne(c, '%', "\\%");
    ReplaceOne(c, '$', "\\$");
    ReplaceOne(c, '#', "\\#");
    ReplaceAbsent(['\\', c], '_', "\\_");
    ReplaceAbsent(['\\', c], '{', "\\{");
    ReplaceAbsent(['\\', c], '}', "\\}");
    ReplaceAbsent(['\\', c], '~', "\\textasciitilde{}");
    LastPassPair(c);
    PassesChain([c], [c], [c], [c], ['\\', c], ['\\', c], ['\\', c], ['\\', c], ['\\', c], Backslash + [c]);
  }

  lemma PassesUnderscore(c: char)
    requires c == '_'
    ensures Passes([c], Table) == CharEscape(c)
  {
    ReplaceOne(c, '&', "\\&");
    ReplaceOne(c, '%', "\\%");
    ReplaceOne(c, '$', "\\$");
    ReplaceOne(c, '#', "\\#");
    ReplaceOne(c, '_', "\\_");
    ReplaceAbsent(['\\', c], '{', "\\{");
    ReplaceAbsent(['\\', c], '}', "\\}");
    ReplaceAbsent(['\\', c], '~', "\\textasciitilde{}");
    LastPassPair(c);
    PassesChain([c], [c], [c], [c], [c], ['\\', c], ['\\', c], ['\\', c], ['\\', c], Backslash + [c]);
  }

  lemma PassesOpenBrace(c: char)
    requires c == '{'
    ensures Passes([c], Table) == CharEscape(c)
  {
    ReplaceOne(c, '&', "\\&");
    ReplaceOne(c, '%', "\\%");
    ReplaceOne(c, '$', "\\$");
    ReplaceOne(c, '#', "\\#");
    ReplaceOne(c, '_', "\\_");
    ReplaceOne(c, '{', "\\{");
    ReplaceAbsent(['\\', c], '}', "\\}");
    ReplaceAbsent(['\\', c], '~', "\\textasciitilde{}");
    LastPassPair(c);
    PassesChain([c], [c], [c], [c], [c], [c], ['\\', c], ['\\', c], ['\\', c], Backslash + [c]);
  }

  lemma PassesCloseBrace(c: char)
    requires c == '}'
    ensures Passes([c], Table) == CharEscape(c)
  {
    ReplaceOne(c, '&', "\\&");
    ReplaceOne(c, '%', "\\%");
    ReplaceOne(c, '$', "\\$");
    ReplaceOne(c, '#', "\\#");
    ReplaceOne(c, '_', "\\_");
    ReplaceOne(c, '{', "\\{");
    ReplaceOne(c, '}', "\\}");
    ReplaceAbsent(['\\', c], '~', "\\textasciitilde{}");
    LastPassPair(c);
    PassesChain([c], [c], [c], [c], [c], [c], [c], ['\\', c], ['\\', c], Backslash + [c]);
  }

  /** The backslash pass on what the tilde rule inserted. */
  lemma TildeLastPass(t: string, tail: string)
    requires tail == "textasciitilde{}" && t == ['\\'] + tail
    ensures Replace(t, '\\', Backslash) == Backslash + tail
  {
    ReplaceConcat(['\\'], tail, '\\', Backslash);
    ReplaceOne('\\', '\\', Backslash);
    ReplaceAbsent(tail, '\\', Backslash);
  }

  lemma PassesTilde(c: char)
    requires c == '~'
    ensures Passes([c], Table) == CharEscape(c)
  {
    ReplaceOne(c, '&', "\\&");
    ReplaceOne(c, '%', "\\%");
    ReplaceOne(c, '$', "\\$");
    ReplaceOne(c, '#', "\\#");
    ReplaceOne(c, '_', "\\_");
    ReplaceOne(c, '{', "\\{");
    ReplaceOne(c, '}', "\\}");
    ReplaceOne(c, '~', "\\textasciitilde{}");
    TildeLastPass("\\textasciitilde{}", "textasciitilde{}");
    PassesChain([c], [c], [c], [c], [c], [c], [c], [c], "\\textasciitilde{}", Backslash + "textasciitilde{}");
  }

  lemma PassesBackslashChar(c: char)
    requires c == '\\'
    ensures Passes([c], Table) == CharEscape(c)
  {
    ReplaceOne(c, '&', "\\&");
    ReplaceOne(c, '%', "\\%");
    ReplaceOne(c, '$', "\\$");
    ReplaceOne(c, '#', "\\#");
    ReplaceOne(c, '_', "\\_");
    ReplaceOne(c, '{', "\\{");
    ReplaceOne(c, '}', "\\}");
    ReplaceOne(c, '~', "\\textasciitilde{}");
    ReplaceOne(c, '\\', Backslash);
    PassesChain([c], [c], [c], [c], [c], [c], [c], [c], [c], Backslash);
  }

  /** What the nine passes make of each character that has a rule. */
  lemma PassesSpecial(c: char)
    requires c in Specials
    ensures Passes([c], Table) == CharEscape(c)
  {
    match c
    case '&' => PassesAmpersand(c);
    case '%' => PassesPercent(c);
    case '$' => PassesDollar(c);
    case '#' => PassesHash(c);
    case '_' => PassesUnderscore(c);
    case '{' => PassesOpenBrace(c);
    case '}' => PassesCloseBrace(c);
    case '~' => PassesTilde(c);
    case '\\' => PassesBackslashChar(c);
  }

  /** The nine passes, applied to one character, give `CharEscape`. */
  lemma PassesChar(c: char)
    ensures Passes([c], Table) == CharEscape(c)
  {
    if c in Specials {
      PassesSpecial(c);
    } else {
      PassesPlain(c);
    }
  }


  /** The sequential passes and the per-character walk are the same function. */
  lemma {:induction false} EscapedIsByChar(s: string)
    ensures Escaped(s) == EscapeByChar(s)
  {
    if s != [] {
      assert s == [s[0]] + s[1..];
      PassesConcat([s[0]], s[1..], Table);
      PassesChar(s[0]);
      EscapedIsByChar(s[1..]);
    }
  }

  lemma {:induction false} ByCharConcat(a: string, b: string)
    ensures EscapeByChar(a + b) == EscapeByChar(a) + EscapeByChar(b)
  {
    if a != [] {
      assert (a + b)[1..] == a[1..] + b;
      ByCharConcat(a[1..], b);
    } else {
      assert a + b == b;
    }
  }

  // ----- properties of the escaper -----

  /** No character of `s` has a rule. */
  predicate Safe(s: string) {
    forall i :: 0 <= i < |s| ==> s[i] !in Specials
  }

  /** A backslash occurs in a character's escape only as the start of `\textbackslash{}`. */
  lemma CharEscapeBackslash(c: char)
    ensures forall i :: 0 < i < |CharEscape(c)| ==> CharEscape(c)[i] != '\\'
    ensures CharEscape(c)[0] == '\\' <==> c in Specials
    ensures c in Specials ==> |CharEscape(c)| > 16 || (c == '\\' && |CharEscape(c)| == 16)
    ensures c in Specials ==> CharEscape(c)[..16] == Backslash
  {
  }

  lemma CharEscapeNoTilde(c: char)
    ensures '~' !in CharEscape(c)
  {
  }

  lemma {:induction false} ByCharNoTilde(s: string)
    ensures '~' !in EscapeByChar(s)
  {
    if s != [] {
      CharEscapeNoTilde(s[0]);
      ByCharNoTilde(s[1..]);
    }
  }

  /** Every backslash of `t` is the first character of a `\textbackslash{}`. */
  predicate BackslashesOpenTextbackslash(t: string) {
    forall i :: 0 <= i < |t| && t[i] == '\\' ==> i + 16 <= |t| && t[i..i + 16] == Backslash
  }

  lemma BackslashesConcat(a: string, b: string)
    requires BackslashesOpenTextbackslash(a) && BackslashesOpenTextbackslash(b)
    ensures BackslashesOpenTextbackslash(a + b)
  {
    var t := a + b;
    forall i | 0 <= i < |t| && t[i] == '\\' ensures i + 16 <= |t| && t[i..i + 16] == Backslash {
      if i < |a| {
        assert a[i] == '\\';
        assert t[i..i + 16] == a[i..i + 16];
      } else {
        var j := i - |a|;
        assert b[j] == '\\';
        assert t[i..i + 16] == b[j..j + 16];
      }
    }
  }

  lemma CharEscapeOpens(c: char)
    ensures BackslashesOpenTextbackslash(CharEscape(c))
  {
    CharEscapeBackslash(c);
  }

  lemma {:induction false} ByCharBackslash(s: string)
    ensures BackslashesOpenTextbackslash(EscapeByChar(s))
  {
    if s != [] {
      CharEscapeOpens(s[0]);
      ByCharBackslash(s[1..]);
      BackslashesConcat(CharEscape(s[0]), EscapeByChar(s[1..]));
    }
  }

  lemma {:induction false} ByCharSafe(s: string)
    requires Safe(s)
    ensures EscapeByChar(s) == s
  {
    if s != [] {
      assert s[0] !in Specials;
      ByCharSafe(s[1..]);
      assert s == [s[0]] + s[1..];
    }
  }

  lemma {:induction false} ByCharLength(s: string)
    ensures |EscapeByChar(s)| >= |s|
    ensures !Safe(s) ==> |EscapeByChar(s)| > |s|
  {
    if s != [] {
      CharEscapeBackslash(s[0]);
      ByCharLength(s[1..]);
      if !Safe(s) && s[0] !in Specials {
        var i :| 0 <= i < |s| && s[i] in Specials;
        assert s[1..][i - 1] in Specials;
      }
    }
  }

  /** The output of `latex_escape` never contains a tilde. */
  lemma NoTilde(s: string)
    ensures '~' !in Escaped(s)
  {
    EscapedIsByChar(s);
    ByCharNoTilde(s);
  }

  /** Every backslash in the output is the first character of a `\textbackslash{}`. */
  lemma EveryBackslashIsTextbackslash(s: string)
    ensures forall i :: 0 <= i < |Escaped(s)| && Escaped(s)[i] == '\\' ==>
      i + 16 <= |Escaped(s)| && Escaped(s)[i..i + 16] == Backslash
  {
    EscapedIsByChar(s);
    ByCharBackslash(s);
  }

  /** A string is left unchanged exactly when none of its characters has a rule. */
  lemma UnchangedIffSafe(s: string)
    ensures Escaped(s) == s <==> Safe(s)
  {
    EscapedIsByChar(s);
    ByCharLength(s);
    if Safe(s) {
      ByCharSafe(s);
    }
  }

  /** Escaping never shortens the text, and lengthens every string that has a special character. */
  lemma NeverShorter(s: string)
    ensures |Escaped(s)| >= |s|
    ensures !Safe(s) ==> |Escaped(s)| > |s|
  {
    EscapedIsByChar(s);
    ByCharLength(s);
  }

  /** The ampersand comes out behind an escaped backslash, not as `\&`. */
  lemma AmpersandOutput()
    ensures Escaped("&") == "\\textbackslash{}&"
  {
    EscapedIsByChar("&");
    assert EscapeByChar("&") == CharEscape('&') + EscapeByChar([]);
  }

  /** Escaping already escaped text changes it again whenever it changed the first time. */
  lemma NotIdempotent(s: string)
    requires !Safe(s)
    ensures Escaped(Escaped(s)) != Escaped(s)
  {
    var t := Escaped(s);
    NeverShorter(s);
    UnchangedIffSafe(s);
    EscapedIsByChar(s);
    var i :| 0 <= i < |s| && s[i] in Specials;
    SpecialLeavesBackslash(s, i);
    NeverShorter(t);
  }

  /** Every special character of the input leaves a backslash in the output. */
  lemma {:induction false} SpecialLeavesBackslash(s: string, i: nat)
    requires i < |s| && s[i] in Specials
    ensures !Safe(EscapeByChar(s))
  {
    CharEscapeBackslash(s[0]);
    var out := EscapeByChar(s);
    assert out == CharEscape(s[0]) + EscapeByChar(s[1..]);
    if i == 0 {
      assert out[0] == '\\';
    } else {
      SpecialLeavesBackslash(s[1..], i - 1);
      var j :| 0 <= j < |EscapeByChar(s[1..])| && EscapeByChar(s[1..])[j] in Specials;
      assert out[|CharEscape(s[0])| + j] in Specials;
    }
  }
}
