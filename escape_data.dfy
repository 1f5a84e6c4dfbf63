/**
 * `escape_data`: structural recursion over the input data. Every string leaf
 * goes through `latex_escape`, lists keep their length and order,
 * dictionaries keep their keys (which are never escaped) and their order,
 * and every other value comes back as it is.
 */
module DataEscape {
  import opened Wrappers
  import opened Values
  import opened Escaper

  /** `escape_data`. */
  function EscapeData(v: Value): Value
    decreases v
  {
    match v
    case Str(s) => Str(Escaped(s))
    case List(xs) => List(seq(|xs|, i requires 0 <= i < |xs| => EscapeData(xs[i])))
    case Dict(es) => Dict(seq(|es|, i requires 0 <= i < |es| => (es[i].0, EscapeData(es[i].1))))
    case _ => v
  }

  /**
   * `a` and `b` have the same structure: the same constructors, lists of the
   * same lengths, dictionaries with the same keys in the same order, and the
   * same values at every leaf that is not a string.
   */
  predicate SameShape(a: Value, b: Value)
    decreases a
  {
    match a
    case Str(_) => b.Str?
    case List(xs) =>
      b.List? && |b.items| == |xs| &&
      forall i :: 0 <= i < |xs| ==> SameShape(xs[i], b.items[i])
    case Dict(es) =>
      b.Dict? && Keys(b.entries) == Keys(es) &&
      forall i :: 0 <= i < |es| ==> SameShape(es[i].1, b.entries[i].1)
    case _ => b == a
  }

  /** One step of a path into nested data: a list index or a dictionary key. */
  datatype Step = Index(i: nat) | Key(k: string)

  /** The value reached from `v` along `path`, as `v[p0][p1]...` would reach it. */
  function At(v: Value, path: seq<Step>): Option<Value>
    decreases |path|
  {
    if path == [] then Some(v)
    else match (path[0], v)
      case (Index(i), List(xs)) => if i < |xs| then At(xs[i], path[1..]) else None
      case (Key(k), Dict(es)) =>
        (match Lookup(es, k)
         case Some(x) => At(x, path[1..])
         case None => None)
      case _ => None
  }

  /** Escaping keeps the structure of the data. */
  lemma {:induction false} EscapeDataShape(v: Value)
    ensures SameShape(v, EscapeData(v))
    decreases v
  {
    match v
    case List(xs) =>
      forall i | 0 <= i < |xs| ensures SameShape(xs[i], EscapeData(v).items[i]) {
        EscapeDataShape(xs[i]);
      }
    case Dict(es) =>
      var es' := EscapeData(v).entries;
      assert Keys(es') == Keys(es);
      forall i | 0 <= i < |es| ensures SameShape(es[i].1, es'[i].1) {
        EscapeDataShape(es[i].1);
      }
    case _ =>
  }

  /** Looking a key up in an escaped dictionary finds the escaped value. */
  lemma {:induction false} LookupEscaped(es: seq<(string, Value)>, k: string)
    ensures Lookup(EscapeData(Dict(es)).entries, k) ==
      match Lookup(es, k) case Some(x) => Some(EscapeData(x)) case None => None
  {
    var es' := EscapeData(Dict(es)).entries;
    if es != [] {
      LookupEscaped(es[1..], k);
      assert es'[1..] == EscapeData(Dict(es[1..])).entries;
    }
  }

  /**
   * Escaping commutes with path lookup: whatever `v` holds at a path, the
   * escaped data holds its escape there, and no other paths exist.
   */
  lemma {:induction false} AtEscapeData(v: Value, path: seq<Step>)
    ensures At(EscapeData(v), path) ==
      match At(v, path) case Some(x) => Some(EscapeData(x)) case None => None
    decreases |path|
  {
    if path != [] {
      match (path[0], v)
      case (Index(i), List(xs)) =>
        if i < |xs| {
          AtEscapeData(xs[i], path[1..]);
        }
      case (Key(k), Dict(es)) =>
        LookupEscaped(es, k);
        match Lookup(es, k) {
          case Some(x) => AtEscapeData(x, path[1..]);
          case None =>
        }
      case _ =>
    }
  }

  /** Every string leaf of the escaped data is the escape of the leaf at the same path. */
  lemma StringLeafEscaped(v: Value, path: seq<Step>, s: string)
    requires At(v, path) == Some(Str(s))
    ensures At(EscapeData(v), path) == Some(Str(Escaped(s)))
  {
    AtEscapeData(v, path);
  }

  /** Leaves that are neither strings, lists nor dictionaries come back as they are. */
  lemma OtherLeafUnchanged(v: Value, path: seq<Step>, x: Value)
    requires At(v, path) == Some(x) && (x.Null? || x.Bool? || x.Int?)
    ensures At(EscapeData(v), path) == Some(x)
  {
    AtEscapeData(v, path);
  }

  /** No string anywhere in the escaped data contains a tilde. */
  lemma NoTildeInLeaves(v: Value, path: seq<Step>, t: string)
    requires At(EscapeData(v), path) == Some(Str(t))
    ensures '~' !in t
  {
    AtEscapeData(v, path);
    match At(v, path)
    case Some(x) => NoTilde(x.s);
  }

  /** Every string leaf is safe. */
  predicate SafeData(v: Value)
    decreases v
  {
    match v
    case Str(s) => Safe(s)
    case List(xs) => forall i :: 0 <= i < |xs| ==> SafeData(xs[i])
    case Dict(es) => forall i :: 0 <= i < |es| ==> SafeData(es[i].1)
    case _ => true
  }

  /** Data whose strings have no special characters comes back unchanged. */
  lemma {:induction false} SafeDataUnchanged(v: Value)
    requires SafeData(v)
    ensures EscapeData(v) == v
    decreases v
  {
    match v
    case Str(s) => UnchangedIffSafe(s);
    case List(xs) =>
      forall i | 0 <= i < |xs| ensures EscapeData(xs[i]) == xs[i] {
        SafeDataUnchanged(xs[i]);
      }
      assert EscapeData(v).items == xs;
    case Dict(es) =>
      forall i | 0 <= i < |es| ensures EscapeData(es[i].1) == es[i].1 {
        SafeDataUnchanged(es[i].1);
      }
      assert EscapeData(v).entries == es;
    case _ =>
  }
}
