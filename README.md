# LaTeX escaping in the resume generator

`resume.py` asks for a person's details, escapes every string for LaTeX, puts
a few raw fields back, and renders a LaTeX resume. This project models the
part of that program that is pure logic and proves its properties in Dafny:

- `latex_escape` (module `Escaper`). Nine whole-string `str.replace` passes
  run in the order of the replacement dictionary: `&`, `%`, `$`, `#`, `_`,
  `{`, `}`, `~`, `\`. Each pass sees what the earlier passes inserted.
  `LatexEscape` is the loop over the dictionary. It is proved equal to
  `Escaped`, a left fold over the same table. `EscapeByChar` is a
  character-by-character description of the same function. It is proved equal
  to `Escaped`, and the properties below are derived from it.
- `escape_data` (module `DataEscape`). This is a structural recursion over a
  `Value` datatype of strings, lists, string-keyed dictionaries and the other
  leaves. A dictionary is an association list in insertion order. The
  dictionary operations of module `Values` follow Python's assignment rule:
  an existing key is overwritten in place, and a new key is appended.
- The override block after escaping (module `RawOverride`). The escaped
  dictionary is a `Record` object. Its method `ApplyRawFields` carries out the
  five assignments one after another. If a raw key is missing, Python raises
  `KeyError`; the model returns the missing key's name instead and stops where
  the program stops.
- The defaulting rule of `get_input` (module `InputDefault`). The line that
  was read is a parameter. The result is the stripped line if that is
  non-empty, otherwise the default.

The program does not match the intent its comments and its replacement
dictionary express. With the backslash rule last, every backslash that an
earlier rule inserted is rewritten to `\textbackslash{}`. So `&` comes out as
`\textbackslash{}&`, and the `&` reaches LaTeX unescaped. Everywhere else the
model keeps the program's actual behaviour. Module `IntendedEscaper` states
the corrected escaper and proves what the program meant to achieve (see
"## Findings").

The design description of this program disagrees with the code in two ways.
It lists a `^` → `\textasciicircum{}` rule, which the code does not have. It
also says earlier replacements are not reprocessed by later ones, which the
code does not guarantee. The model follows the code: `^` passes through
untouched (`UnchangedIffSafe`), and inserted backslashes are reprocessed
(`AmpersandOutput`).

## Model

| member | source | states |
|---|---|---|
| Escaper.LatexEscape | resume.py:13-29 | A non-string comes back unchanged. A string comes back as the nine replace passes applied in the dictionary's order, each to the whole current string. |
| Escaper.EscapedIsByChar | resume.py:16-28 | The sequential passes equal one left-to-right walk. The walk escapes each dictionary character as `\textbackslash{}` plus the character; `~` as `\textbackslash{}textasciitilde{}`; a backslash as `\textbackslash{}`; every other character unchanged. |
| Escaper.NoTilde | resume.py:24-28 | The output of the escaper never contains `~`. |
| Escaper.EveryBackslashIsTextbackslash | resume.py:25-28 | Every backslash in the output is the first character of an occurrence of `\textbackslash{}`. |
| Escaper.UnchangedIffSafe | resume.py:16-28 | A string comes back unchanged exactly when it contains none of the nine dictionary characters, so `^` and all other characters pass through. |
| Escaper.NeverShorter | resume.py:16-28 | The output is never shorter than the input. It is strictly longer when the input contains a dictionary character. |
| Escaper.AmpersandOutput | resume.py:17-28 | `&` comes out as `\textbackslash{}&`, not as `\&`. |
| Escaper.NotIdempotent | resume.py:16-28 | Escaping again changes any string that the first escaping changed. |
| DataEscape.EscapeDataShape | resume.py:32-40 | Escaping keeps the structure of the data. Lists keep their length; dictionaries keep their keys, unescaped and in order; every non-string leaf keeps its value. |
| DataEscape.LookupEscaped | resume.py:37-38 | A key of the escaped dictionary holds the escape of the input's value at that key, and the escaped dictionary has no other keys. |
| DataEscape.AtEscapeData | resume.py:32-40 | Along any path of list indices and dictionary keys, the escaped data holds the escape of what the input holds there. No path exists in one that does not exist in the other. |
| DataEscape.StringLeafEscaped | resume.py:33-34 | A string leaf of the input comes back as its `latex_escape` at the same path. |
| DataEscape.OtherLeafUnchanged | resume.py:39-40 | A leaf that is not a string, list or dictionary comes back unchanged at the same path. |
| DataEscape.NoTildeInLeaves | resume.py:32-40 | No string anywhere in the escaped data contains `~`. |
| DataEscape.SafeDataUnchanged | resume.py:32-40 | Data whose strings contain no dictionary character comes back unchanged. |
| Values.LookupPutSame | resume.py:155-159 | After `d[k] = v`, reading `k` gives `v`. |
| Values.LookupPutOther | resume.py:155-159 | After `d[k] = v`, every other key reads as before. |
| Values.KeysPut | resume.py:155-159 | `d[k] = v` keeps the key order and appends `k` only when it is new. |
| Values.PutKeepsDistinct | resume.py:155-159 | Assignment never makes a dictionary hold a key twice. |
| RawOverride.Record.Set | resume.py:155-159 | One assignment `user_data_escaped[k] = v` on the record. The record's dictionary stays one with distinct keys. |
| RawOverride.Record.CopyRaw | resume.py:155-159 | `user_data_escaped[target] = user_data[source]`. The method reports whether the read succeeds; when it does not, nothing changes. |
| RawOverride.Record.ApplyRawFields | resume.py:155-159 | The five assignments, in program order. The result names the first raw key that is missing, the one where `KeyError` is raised. The new dictionary is the old one with the assignments before that point applied. |
| RawOverride.EscapeUserData | resume.py:154-159 | `user_data_escaped` is `escape_data(user_data)` followed by the override block. Its keys stay distinct. |
| RawOverride.RenderDataFields | resume.py:155-159 | When no raw key is missing, `email_latex` holds the raw `email`, and `linkedin`, `github`, `linkedin_text` and `github_text` hold their raw input values. |
| RawOverride.RenderDataOthers | resume.py:154-159 | Every key the block does not write holds `escape_data(user_data)` at that key, or is absent when the input lacks it. |
| RawOverride.EmailStaysEscaped | resume.py:154-155 | `email` reaches the template escaped. |
| RawOverride.RenderDataKeys | resume.py:154-159 | When no raw key is missing, the keys that reach the template are the input's keys in order, followed by the new key `email_latex`. |
| InputDefault.ChooseInput | resume.py:99 | A blank line gives the default. Any other line gives a non-empty result with no whitespace at either end: a slice of the line with only whitespace cut from both ends. |
| InputDefault.StripSpec | resume.py:99 | `strip()` returns the empty string exactly for a blank line. Otherwise it returns a slice of the line that neither begins nor ends with whitespace, with only whitespace cut from either end. |
| InputDefault.StripIdempotent | resume.py:99 | Stripping twice is the same as stripping once. |
| InputDefault.ChooseInputDefault | resume.py:99 | The result is the default exactly when the line is blank or its stripped form equals the default. It is empty exactly when the line is blank and the default is empty. |
| IntendedEscaper.AsWrittenLeavesAmpersandBare | resume.py:17-28 | The program's escaping of `&` leaves the `&` without a preceding backslash. |
| IntendedEscaper.CorpExampleAsWritten | resume.py:16-28 | The program escapes `A & B_Corp` as `A \textbackslash{}& B\textbackslash{}_Corp`. |
| IntendedEscaper.IntendedUsesTable | resume.py:16-26 | The corrected escaper replaces each dictionary character with exactly its dictionary entry. |
| IntendedEscaper.IntendedIsActiveEscaped | resume.py:16-26 | In the corrected output, every `&`, `%`, `$`, `#` and `_` is preceded by a backslash, whatever the input. |
| IntendedEscaper.IntendedRoundTrip | resume.py:16-26 | The corrected escaping loses nothing: unescaping its output gives back the input. |
| IntendedEscaper.CorpExampleIntended | resume.py:16-26 | The corrected escaper turns `A & B_Corp` into `A \& B\_Corp`. |

## Left out

- The Jinja2 environment and `template.render` (resume.py:7-10, 162-163) are calls into a library this model does not include. The template text (resume.py:43-94) is data.
- The prompt loops `get_multientry` and `get_list` (resume.py:101-123), and the `input()` and `print()` calls, are console I/O. Only the choice at line 99 is modelled, with the line read as a parameter.
- The top-level data collection (resume.py:126-151) is a sequence of I/O calls. `EscapeUserData` takes any string-keyed dictionary instead.
- Writing `resume.tex`, the `shutil.which` check, the `pdflatex` subprocess and `latex_error.log` (resume.py:166-188) are file and process I/O.
- ChooseInput: whitespace is the six ASCII characters space, tab, newline, carriage return, vertical tab and form feed. Python's `str.strip()` also strips the other Unicode whitespace and separator characters.
- RawOverride.Record.ApplyRawFields: a missing raw key raises `KeyError` in Python and ends the program. The model instead returns the key's name, together with the dictionary as updated up to that point.
- Values: only the leaf types the escaper distinguishes are modelled (None, booleans, integers, strings, lists, dictionaries with string keys). Floats, tuples and non-string keys are left out because the program collects none of them.

## Findings

| source | as written | input that shows it | evidently intended | confidence | as-written member | corrected member |
|---|---|---|---|---|---|---|
| resume.py:16-28 | The backslash rule runs last, so it rewrites the backslash of every `\&`, `\%`, `\$`, `\#`, `\_`, `\{`, `\}` and `\textasciitilde{}` an earlier pass inserted. | `&` becomes `\textbackslash{}&`, and the bare `&` is an alignment tab in LaTeX. | Each character is replaced once by its own dictionary entry, so `&` becomes `\&`. | not executed | IntendedEscaper.AsWrittenLeavesAmpersandBare | IntendedEscaper.IntendedIsActiveEscaped |

The corrected escaper is `IntendedEscaper.IntendedEscape`.
`IntendedIsActiveEscaped` proves that it escapes every active character.
`IntendedRoundTrip` proves that it can be undone. The pipeline modules
(`DataEscape`, `RawOverride`) keep the program's escaper as written, since
they model what the program does.
