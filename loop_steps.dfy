/** The loops of `parseObject` and `parseArray`, one exit path at a time: what
    the loop function yields when an iteration breaks, diverges or goes on.
    Both Java copies of the reader run these loops; their methods are proved
    against `ObjectMembers` and `ArrayElements` through these steps. */
module LoopSteps {
  import opened Values
  import opened Grammar

  // ----- The object loop -----

  /** A member that breaks or has no normal return ends the loop with it. */
  lemma MemberEndsLoop(s: string, p: nat, acc: seq<Entry>)
    requires Trimmed(s) && p < |s| && forall x | x in acc :: WellFormed(x.value)
    ensures MemberAt(s, p).Break? ==> ObjectMembers(s, p, acc) == Members(acc, MemberAt(s, p).pos)
    ensures MemberAt(s, p).MemberDiverges? ==> ObjectMembers(s, p, acc) == MembersDiverge
  {
  }

  /** After a pair and its separator, the loop either ends with the pairs read
      so far, or goes on from the cursor the separator left. */
  lemma MemberThenSeparator(s: string, p: nat, acc: seq<Entry>, key: string, v: Value, q3: nat, ends: bool, q: nat)
    requires Trimmed(s) && p < |s| && forall x | x in acc :: WellFormed(x.value)
    requires MemberAt(s, p) == KeyValue(key, v, q3) && (ends, q) == Separator(s, q3, '}')
    ensures forall x | x in acc + [Entry(key, v)] :: WellFormed(x.value)
    ensures ends ==> ObjectMembers(s, p, acc) == Members(acc + [Entry(key, v)], q)
    ensures !ends ==> ObjectMembers(s, p, acc) == ObjectMembers(s, q, acc + [Entry(key, v)])
  {
    EntriesWellFormedAppend(acc, Entry(key, v));
  }

  /** `parseObject` on a `{` not followed by `}`: the map of the pairs the loop
      reads from `q`. */
  lemma ObjectOfLoop(s: string, p: nat, q: nat, m: Members)
    requires Trimmed(s) && p < |s| && q == SkipWs(s, p + 1) && !(q < |s| && s[q] == '}')
    requires m == ObjectMembers(s, q, [])
    ensures m.MembersDiverge? ==> ParseObject(s, p) == Diverges
    ensures m.Members? ==> ParseObject(s, p) == Parsed(Object(PutAll(m.pairs)), m.pos)
  {
  }

  // ----- The array loop -----

  /** An element with no normal return stops the loop for good. */
  lemma ElementNeverReturns(s: string, p: nat, acc: seq<Value>)
    requires Trimmed(s) && p < |s| && WellFormed(Array(acc))
    requires ParseValue(s, SkipWs(s, p)) == Diverges
    ensures ArrayElements(s, p, acc) == Diverges
  {
  }

  /** After an element and its separator, the loop either ends with the
      elements read so far, or has no normal return when the iteration left the cursor
      where it began, or goes on from the cursor the separator left. */
  lemma ElementThenSeparator(s: string, p: nat, acc: seq<Value>, v: Value, q1: nat, ends: bool, q: nat)
    requires Trimmed(s) && p < |s| && WellFormed(Array(acc))
    requires ParseValue(s, SkipWs(s, p)) == Parsed(v, q1) && (ends, q) == Separator(s, q1, ']')
    ensures WellFormed(Array(acc + [v]))
    ensures ends ==> ArrayElements(s, p, acc) == Parsed(Array(acc + [v]), q)
    ensures !ends && q == p ==> ArrayElements(s, p, acc) == Diverges
    ensures !ends && q != p ==> ArrayElements(s, p, acc) == ArrayElements(s, q, acc + [v])
  {
    WellFormedAppend(acc, v);
  }

  /** `parseArray` on a `[` not followed by `]`: what the loop reads from `q`. */
  lemma ArrayOfLoop(s: string, p: nat, q: nat)
    requires Trimmed(s) && p < |s| && q == SkipWs(s, p + 1) && !(q < |s| && s[q] == ']')
    ensures ParseArray(s, p) == ArrayElements(s, q, [])
  {
  }
}
