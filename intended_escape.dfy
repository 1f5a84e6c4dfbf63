/**
 * The escaping `latex_escape` evidently means to do: replace each special
 * character once by its entry in the replacement dictionary, so that `&`
 * becomes `\&`. Because the nine passes run one after another, the program
 * instead re-escapes the backslash that every earlier rule inserted, so `&`
 * becomes `\textbackslash{}&` and the `&` itself reaches LaTeX bare, where it
 * is an alignment tab (and a bare `%` starts a comment, a bare `_` or `#` is
 * an error).
 *
 * `ActiveEscaped` is the property LaTeX needs; `AsWrittenLeavesAmpersandBare`
 * shows that the program's escaper breaks it, `IntendedIsActiveEscaped` and
 * `IntendedRoundTrip` prove it and reversibility for the corrected one.
 */
module IntendedEscaper {
  import opened Escaper

  /** The characters LaTeX treats as commands unless a backslash precedes them. */
  const Active: set<char> := {'&', '%', '$', '#', '_'}

  /** The characters the dictionary escapes with a single backslash. */
  const Prefixed: set<char> := {'&', '%', '$', '#', '_', '{', '}'}

  const Tilde: string := "\\textasciitilde{}"

  /** `replacements.get(c, c)`: a character's own dictionary entry, once. */
  function IntendedChar(c: char): string
  {
    if c in Prefixed then ['\\', c]
    else if c == '~' then Tilde
    else if c == '\\' then Backslash
    else [c]
  }

  /** Each character of `s` replaced once by its dictionary entry. */
  function IntendedEscape(s: string): string
  {
    if s == [] then [] else IntendedChar(s[0]) + IntendedEscape(s[1..])
  }

  /** Every active character is preceded by a backslash. */
  predicate ActiveEscaped(t: string) {
    forall i :: 0 <= i < |t| && t[i] in Active ==> i > 0 && t[i - 1] == '\\'
  }

  /** Reads LaTeX text produced by `IntendedEscape` back into the original text. */
  function Unescape(t: string): string
    decreases |t|
  {
    if t == [] then []
    else if |t| >= 16 && t[..16] == Backslash then ['\\'] + Unescape(t[16..])
    else if |t| >= 17 && t[..17] == Tilde then ['~'] + Unescape(t[17..])
    else if |t| >= 2 && t[0] == '\\' && t[1] in Prefixed then [t[1]] + Unescape(t[2..])
    else [t[0]] + Unescape(t[1..])
  }

  /** The corrected escaper uses exactly the dictionary's entries. */
  lemma IntendedUsesTable(j: nat)
    requires j < |Table|
    ensures IntendedChar(Table[j].0) == Table[j].1
  {
  }

  lemma UnescapeChar(c: char, rest: string)
    ensures Unescape(IntendedChar(c) + rest) == [c] + Unescape(rest)
  {
    var t := IntendedChar(c) + rest;
    if c == '\\' {
      assert t[..16] == Backslash;
      assert t[16..] == rest;
    } else if c == '~' {
      assert t[5] == 'a' && Backslash[5] == 'b';
      assert t[..17] == Tilde;
      assert t[17..] == rest;
    } else if c in Prefixed {
      assert t[1] == c && Backslash[1] == 't' && Tilde[1] == 't';
      assert t[2..] == rest;
    } else {
      assert t[0] == c && Backslash[0] == '\\' && Tilde[0] == '\\';
      assert t[1..] == rest;
    }
  }

  /** The corrected escaping loses nothing: `Unescape` recovers the input. */
  lemma {:induction false} IntendedRoundTrip(s: string)
    ensures Unescape(IntendedEscape(s)) == s
  {
    if s != [] {
      UnescapeChar(s[0], IntendedEscape(s[1..]));
      IntendedRoundTrip(s[1..]);
    }
  }

  /** Whatever the input, every active character of the corrected output is escaped. */
  lemma {:induction false} IntendedIsActiveEscaped(s: string)
    ensures ActiveEscaped(IntendedEscape(s))
  {
    if s != [] {
      var tok, rest := IntendedChar(s[0]), IntendedEscape(s[1..]);
      var out := IntendedEscape(s);
      assert out == tok + rest;
      IntendedIsActiveEscaped(s[1..]);
      forall i | 0 <= i < |out| && out[i] in Active ensures i > 0 && out[i - 1] == '\\' {
        if i < |tok| {
          assert tok[0] !in Active;
        } else {
          assert rest[i - |tok|] == out[i];
          assert out[i - 1] == rest[i - |tok| - 1];
        }
      }
    }
  }

  /** The program's escaper leaves the `&` of `&` unescaped, behind `\textbackslash{}`. */
  lemma AsWrittenLeavesAmpersandBare()
    ensures Escaped("&") == Backslash + "&"
    ensures !ActiveEscaped(Escaped("&"))
  {
    AmpersandOutput();
    assert Escaped("&")[16] == '&' && Escaped("&")[15] == '}';
  }

  lemma {:induction false} IntendedConcat(a: string, b: string)
    ensures IntendedEscape(a + b) == IntendedEscape(a) + IntendedEscape(b)
  {
    if a != [] {
      assert (a + b)[1..] == a[1..] + b;
      IntendedConcat(a[1..], b);
    } else {
      assert a + b == b;
    }
  }

  lemma ByCharConcat5(a: string, b: string, c: string, d: string, e: string)
    ensures EscapeByChar(a + b + c + d + e) ==
      EscapeByChar(a) + EscapeByChar(b) + EscapeByChar(c) + EscapeByChar(d) + EscapeByChar(e)
  {
    ByCharConcat(a + b + c + d, e);
    ByCharConcat(a + b + c, d);
    ByCharConcat(a + b, c);
    ByCharConcat(a, b);
  }

  lemma IntendedConcat5(a: string, b: string, c: string, d: string, e: string)
    ensures IntendedEscape(a + b + c + d + e) ==
      IntendedEscape(a) + IntendedEscape(b) + IntendedEscape(c) + IntendedEscape(d) + IntendedEscape(e)
  {
    IntendedConcat(a + b + c + d, e);
    IntendedConcat(a + b + c, d);
    IntendedConcat(a + b, c);
    IntendedConcat(a, b);
  }

  /** The example company name split where its escapes begin and end. */
  lemma CorpPieces(s: string)
    requires s == "A & B_Corp"
    ensures s == "A " + "&" + " B" + "_" + "Corp"
  {
  }

  /** How the program escapes each piece of the example. */
  lemma CorpPiecesAsWritten()
    ensures EscapeByChar("A ") == "A " && EscapeByChar(" B") == " B" && EscapeByChar("Corp") == "Corp"
    ensures EscapeByChar("&") == Backslash + "&" && EscapeByChar("_") == Backslash + "_"
  {
  }

  /** How the corrected escaper treats each piece of the example. */
  lemma CorpPiecesIntended()
    ensures IntendedEscape("A ") == "A " && IntendedEscape(" B") == " B" && IntendedEscape("Corp") == "Corp"
    ensures IntendedEscape("&") == "\\&" && IntendedEscape("_") == "\\_"
  {
  }

  /** The end-to-end example `A & B_Corp` as the program escapes it. */
  lemma CorpExampleAsWritten(s: string)
    requires s == "A & B_Corp"
    ensures Escaped(s) == "A " + Backslash + "&" + " B" + Backslash + "_" + "Corp"
  {
    CorpPieces(s);
    EscapedIsByChar(s);
    ByCharConcat5("A ", "&", " B", "_", "Corp");
    CorpPiecesAsWritten();
  }

  /** The end-to-end example `A & B_Corp` as it is meant to be escaped. */
  lemma CorpExampleIntended(s: string)
    requires s == "A & B_Corp"
    ensures IntendedEscape(s) == "A " + "\\&" + " B" + "\\_" + "Corp"
  {
    CorpPieces(s);
    IntendedConcat5("A ", "&", " B", "_", "Corp");
    CorpPiecesIntended();
  }
}
