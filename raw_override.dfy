/**
 * The block that runs right after `escape_data(user_data)`: five top-level
 * keys of the escaped dictionary are overwritten, one statement after
 * another, with the raw values of the input. `email_latex` is a new key (the
 * raw email, used inside `\url{}`); `linkedin` and `github` keep the raw URLs
 * for `\href{}`; `linkedin_text` and `github_text` keep the raw display text.
 * `email` itself stays escaped.
 *
 * Reading `user_data[k]` for a key the input does not have raises `KeyError`;
 * the model reports the first such key instead and stops there, as the
 * program does.
 */
module RawOverride {
  import opened Wrappers
  import opened Values
  import opened DataEscape

  /** Each overwritten key with the raw key it copies from, in program order. */
  const RawFields: seq<(string, string)> := [
    ("email_latex", "email"),
    ("linkedin", "linkedin"),
    ("github", "github"),
    ("linkedin_text", "linkedin_text"),
    ("github_text", "github_text")
  ]

  /** The keys the block overwrites. */
  const Targets: set<string> := {"email_latex", "linkedin", "github", "linkedin_text", "github_text"}

  /** The first raw key among `fields` that `raw` lacks: where the block raises `KeyError`. */
  function FirstMissing(raw: seq<(string, Value)>, fields: seq<(string, string)>): Option<string>
    decreases |fields|
  {
    if fields == [] then None
    else if Lookup(raw, fields[0].1).None? then Some(fields[0].1)
    else FirstMissing(raw, fields[1..])
  }

  /** The dictionary `d` after the assignments of `fields`, up to the first missing raw key. */
  function Overridden(d: seq<(string, Value)>, raw: seq<(string, Value)>, fields: seq<(string, string)>): seq<(string, Value)>
    decreases |fields|
  {
    if fields == [] then d
    else match Lookup(raw, fields[0].1)
      case None => d
      case Some(x) => Overridden(Put(d, fields[0].0, x), raw, fields[1..])
  }

  /** What the template receives: the escaped input with the five raw fields put back. */
  function RenderData(userData: seq<(string, Value)>): seq<(string, Value)>
  {
    Overridden(EscapeData(Dict(userData)).entries, userData, RawFields)
  }

  /** The escaped dictionary `user_data_escaped`, which the block updates in place. */
  class Record {
    var entries: seq<(string, Value)>

    ghost predicate Valid()
      reads this
    {
      DistinctKeys(entries)
    }

    constructor (es: seq<(string, Value)>)
      requires DistinctKeys(es)
      ensures Valid() && entries == es
    {
      entries := es;
    }

    /** `self[k] = v`. */
    method Set(k: string, v: Value)
      requires Valid()
      modifies this
      ensures Valid() && entries == Put(old(entries), k, v)
    {
      PutKeepsDistinct(entries, k, v);
      entries := Put(entries, k, v);
    }

    /** `self[target] = raw[source]`; `found` is false where the read raises `KeyError`. */
    method CopyRaw(raw: seq<(string, Value)>, target: string, source: string) returns (found: bool)
      requires Valid()
      modifies this
      ensures Valid()
      ensures found <==> Lookup(raw, source).Some?
      ensures entries == if found then Put(old(entries), target, Lookup(raw, source).value) else old(entries)
    {
      var x := Lookup(raw, source);
      if x.None? {
        return false;
      }
      Set(target, x.value);
      return true;
    }

    /** The five assignments of the block, in program order. */
    method ApplyRawFields(raw: seq<(string, Value)>) returns (missing: Option<string>)
      requires Valid()
      modifies this
      ensures Valid()
      ensures missing == FirstMissing(raw, RawFields)
      ensures entries == Overridden(old(entries), raw, RawFields)
    {
      ghost var d0 := entries;
      assert RawFields[0..] == RawFields;
      var found;
      ghost var before;
      before := entries;
      found := CopyRaw(raw, "email_latex", "email");
      CopyStep(d0, before, entries, raw, 0, found);
      if !found {
        return Some("email");
      }
      before := entries;
      found := CopyRaw(raw, "linkedin", "linkedin");
      CopyStep(d0, before, entries, raw, 1, found);
      if !found {
        return Some("linkedin");
      }
      before := entries;
      found := CopyRaw(raw, "github", "github");
      CopyStep(d0, before, entries, raw, 2, found);
      if !found {
        return Some("github");
      }
      before := entries;
      found := CopyRaw(raw, "linkedin_text", "linkedin_text");
      CopyStep(d0, before, entries, raw, 3, found);
      if !found {
        return Some("linkedin_text");
      }
      before := entries;
      found := CopyRaw(raw, "github_text", "github_text");
      CopyStep(d0, before, entries, raw, 4, found);
      if !found {
        return Some("github_text");
      }
      assert RawFields[5..] == [];
      return None;
    }
  }

  /** `user_data_escaped = escape_data(user_data)` followed by the block. */
  method EscapeUserData(userData: seq<(string, Value)>) returns (rec: Record, missing: Option<string>)
    requires DistinctKeys(userData)
    ensures fresh(rec) && rec.Valid()
    ensures missing == FirstMissing(userData, RawFields)
    ensures rec.entries == RenderData(userData)
  {
    EscapeKeepsDistinct(userData);
    rec := new Record(EscapeData(Dict(userData)).entries);
    missing := rec.ApplyRawFields(userData);
  }

  // ----- lemmas -----

  lemma OverriddenFrom(d: seq<(string, Value)>, raw: seq<(string, Value)>, i: nat)
    requires i < |RawFields|
    ensures FirstMissing(raw, RawFields[i..]) ==
      if Lookup(raw, RawFields[i].1).None? then Some(RawFields[i].1) else FirstMissing(raw, RawFields[i + 1..])
    ensures Overridden(d, raw, RawFields[i..]) ==
      match Lookup(raw, RawFields[i].1)
      case None => d
      case Some(x) => Overridden(Put(d, RawFields[i].0, x), raw, RawFields[i + 1..])
  {
    assert RawFields[i..][1..] == RawFields[i + 1..];
  }

  /**
   * What `ApplyRawFields` knows after the assignment for `RawFields[i]`:
   * either that raw key was missing, and the block stops, or the remaining
   * assignments lead to the same final dictionary.
   */
  lemma CopyStep(d0: seq<(string, Value)>, before: seq<(string, Value)>, after: seq<(string, Value)>,
                 raw: seq<(string, Value)>, i: nat, found: bool)
    requires i < |RawFields|
    requires Overridden(d0, raw, RawFields) == Overridden(before, raw, RawFields[i..])
    requires FirstMissing(raw, RawFields) == FirstMissing(raw, RawFields[i..])
    requires found <==> Lookup(raw, RawFields[i].1).Some?
    requires after == if found then Put(before, RawFields[i].0, Lookup(raw, RawFields[i].1).value) else before
    ensures !found ==> FirstMissing(raw, RawFields) == Some(RawFields[i].1)
    ensures !found ==> Overridden(d0, raw, RawFields) == after
    ensures found ==> Overridden(d0, raw, RawFields) == Overridden(after, raw, RawFields[i + 1..])
    ensures found ==> FirstMissing(raw, RawFields) == FirstMissing(raw, RawFields[i + 1..])
  {
    OverriddenFrom(before, raw, i);
  }

  lemma EscapeKeepsDistinct(es: seq<(string, Value)>)
    requires DistinctKeys(es)
    ensures DistinctKeys(EscapeData(Dict(es)).entries)
  {
    var es' := EscapeData(Dict(es)).entries;
    assert forall i :: 0 <= i < |es| ==> es'[i].0 == es[i].0;
  }

  /** No two assignments write the same key. */
  predicate DistinctTargets(fields: seq<(string, string)>) {
    forall i, j :: 0 <= i < j < |fields| ==> fields[i].0 != fields[j].0
  }

  /** A key no assignment writes keeps its value. */
  lemma {:induction false} OverriddenOther(d: seq<(string, Value)>, raw: seq<(string, Value)>,
                                           fields: seq<(string, string)>, k: string)
    requires forall j :: 0 <= j < |fields| ==> fields[j].0 != k
    ensures Lookup(Overridden(d, raw, fields), k) == Lookup(d, k)
    decreases |fields|
  {
    if fields != [] {
      match Lookup(raw, fields[0].1) {
        case None =>
        case Some(x) =>
          LookupPutOther(d, fields[0].0, x, k);
          OverriddenOther(Put(d, fields[0].0, x), raw, fields[1..], k);
      }
    }
  }

  lemma RawFieldsDistinct()
    ensures DistinctTargets(RawFields)
  {
  }

  /** When no raw key is missing, every written key holds the raw value it copies. */
  lemma {:induction false} OverriddenWritten(d: seq<(string, Value)>, raw: seq<(string, Value)>,
                                             fields: seq<(string, string)>, j: nat)
    requires DistinctTargets(fields) && FirstMissing(raw, fields).None? && j < |fields|
    ensures Lookup(Overridden(d, raw, fields), fields[j].0) == Lookup(raw, fields[j].1)
    decreases |fields|
  {
    var x := Lookup(raw, fields[0].1).value;
    var d' := Put(d, fields[0].0, x);
    if j == 0 {
      forall m | 0 <= m < |fields[1..]| ensures fields[1..][m].0 != fields[0].0 {
        assert fields[1..][m] == fields[m + 1];
      }
      OverriddenOther(d', raw, fields[1..], fields[0].0);
      LookupPutSame(d, fields[0].0, x);
    } else {
      assert fields[1..][j - 1] == fields[j];
      OverriddenWritten(d', raw, fields[1..], j - 1);
    }
  }

  /**
   * After the block: the five overwritten keys hold the raw input, `email`
   * and every other key hold `escape_data(user_data)` at that key.
   */
  lemma RenderDataFields(userData: seq<(string, Value)>)
    requires FirstMissing(userData, RawFields).None?
    ensures Lookup(RenderData(userData), "email_latex") == Lookup(userData, "email")
    ensures Lookup(RenderData(userData), "linkedin") == Lookup(userData, "linkedin")
    ensures Lookup(RenderData(userData), "github") == Lookup(userData, "github")
    ensures Lookup(RenderData(userData), "linkedin_text") == Lookup(userData, "linkedin_text")
    ensures Lookup(RenderData(userData), "github_text") == Lookup(userData, "github_text")
  {
    var d := EscapeData(Dict(userData)).entries;
    RawFieldsDistinct();
    OverriddenWritten(d, userData, RawFields, 0);
    OverriddenWritten(d, userData, RawFields, 1);
    OverriddenWritten(d, userData, RawFields, 2);
    OverriddenWritten(d, userData, RawFields, 3);
    OverriddenWritten(d, userData, RawFields, 4);
  }

  /** Every key the block does not write, `email` among them, keeps its escaped value. */
  lemma RenderDataOthers(userData: seq<(string, Value)>, k: string)
    requires k !in Targets
    ensures Lookup(RenderData(userData), k) ==
      match Lookup(userData, k) case Some(x) => Some(EscapeData(x)) case None => None
  {
    var d := EscapeData(Dict(userData)).entries;
    forall j | 0 <= j < |RawFields| ensures RawFields[j].0 != k {
      assert RawFields[j].0 in Targets;
    }
    OverriddenOther(d, userData, RawFields, k);
    LookupEscaped(userData, k);
  }

  /** In particular `email` reaches the template escaped, while `email_latex` is raw. */
  lemma EmailStaysEscaped(userData: seq<(string, Value)>, email: Value)
    requires Lookup(userData, "email") == Some(email)
    ensures Lookup(RenderData(userData), "email") == Some(EscapeData(email))
  {
    RenderDataOthers(userData, "email");
  }

  lemma {:induction false} FirstMissingNone(raw: seq<(string, Value)>, fields: seq<(string, string)>, j: nat)
    requires FirstMissing(raw, fields).None? && j < |fields|
    ensures fields[j].1 in Keys(raw)
    decreases |fields|
  {
    if j > 0 {
      assert fields[1..][j - 1] == fields[j];
      FirstMissingNone(raw, fields[1..], j - 1);
    }
  }

  /** Assignments to keys that are already present keep the key order. */
  lemma {:induction false} OverriddenKeepsKeys(d: seq<(string, Value)>, raw: seq<(string, Value)>,
                                               fields: seq<(string, string)>)
    requires forall j :: 0 <= j < |fields| ==> fields[j].0 in Keys(d)
    ensures Keys(Overridden(d, raw, fields)) == Keys(d)
    decreases |fields|
  {
    if fields != [] {
      match Lookup(raw, fields[0].1) {
        case None =>
        case Some(x) =>
          KeysPut(d, fields[0].0, x);
          forall j | 0 <= j < |fields[1..]| ensures fields[1..][j].0 in Keys(Put(d, fields[0].0, x)) {
            assert fields[1..][j] == fields[j + 1];
          }
          OverriddenKeepsKeys(Put(d, fields[0].0, x), raw, fields[1..]);
      }
    }
  }

  /**
   * The dictionary the template receives has the input's keys in the input's
   * order, followed by the one new key `email_latex`.
   */
  lemma RenderDataKeys(userData: seq<(string, Value)>)
    requires FirstMissing(userData, RawFields).None?
    requires "email_latex" !in Keys(userData)
    ensures Keys(RenderData(userData)) == Keys(userData) + ["email_latex"]
  {
    var d := EscapeData(Dict(userData)).entries;
    EscapeKeepsKeys(userData);
    FirstMissingNone(userData, RawFields, 0);
    var email := Lookup(userData, "email").value;
    var d1 := Put(d, "email_latex", email);
    OverriddenFrom(d, userData, 0);
    assert RawFields[0..] == RawFields;
    KeysPut(d, "email_latex", email);
    assert forall k :: k in Keys(userData) ==> k in Keys(d1);
    LaterFieldsSelfCopy();
    SelfCopiesPresent(userData, d1, RawFields[1..]);
    OverriddenKeepsKeys(d1, userData, RawFields[1..]);
  }

  /** Assignments that copy a raw key into the same key, all present, write only existing keys. */
  lemma SelfCopiesPresent(raw: seq<(string, Value)>, d: seq<(string, Value)>, fields: seq<(string, string)>)
    requires FirstMissing(raw, fields).None?
    requires forall j :: 0 <= j < |fields| ==> fields[j].0 == fields[j].1
    requires forall k :: k in Keys(raw) ==> k in Keys(d)
    ensures forall j :: 0 <= j < |fields| ==> fields[j].0 in Keys(d)
  {
    forall j | 0 <= j < |fields| ensures fields[j].0 in Keys(d) {
      FirstMissingNone(raw, fields, j);
    }
  }

  /** After `email_latex`, every assignment copies a key into itself. */
  lemma LaterFieldsSelfCopy()
    ensures forall j :: 0 <= j < |RawFields[1..]| ==> RawFields[1..][j].0 == RawFields[1..][j].1
  {
  }

  lemma EscapeKeepsKeys(es: seq<(string, Value)>)
    ensures Keys(EscapeData(Dict(es)).entries) == Keys(es)
  {
    var es' := EscapeData(Dict(es)).entries;
    assert forall i :: 0 <= i < |es| ==> es'[i].0 == es[i].0;
    assert Keys(es') == Keys(es);
  }

}
