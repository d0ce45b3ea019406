/** The value tree that the parser builds and both converters read.

    The Java code represents a parsed value as a plain `Object`: `null`, a
    `Boolean`, a `Long`, a `Double`, a `String`, a `LinkedHashMap` or an
    `ArrayList`. Here each case is a constructor of `Value`. */
module Values {

  datatype Option<T> = None | Some(value: T)

  /** One key/value pair of an object, in insertion order. */
  datatype Entry = Entry(key: string, value: Value)

  /** A parsed value. A `Float` keeps the source token it was read from. */
  datatype Value =
    | Null
    | Bool(b: bool)
    | Int(n: int)
    | Float(token: string)
    | Text(s: string)
    | Object(entries: seq<Entry>)
    | Array(items: seq<Value>)

  /** What one parsing routine yields: the value and the cursor just after it,
      or `Diverges` when the Java routine has no normal return (it ends in
      `OutOfMemoryError`). */
  datatype Parsed = Parsed(value: Value, pos: nat) | Diverges

  /** The result of a whole call that may have no normal return. */
  datatype Outcome<T> = Returns(result: T) | Loops

  /** The range of a Java `long`. */
  const MinLong: int := -0x8000_0000_0000_0000
  const MaxLong: int := 0x7FFF_FFFF_FFFF_FFFF

  function Keys(es: seq<Entry>): (ks: seq<string>)
    ensures |ks| == |es|
    ensures forall i | 0 <= i < |es| :: ks[i] == es[i].key
  {
    if es == [] then [] else [es[0].key] + Keys(es[1..])
  }

  /** No key occurs twice: what a `LinkedHashMap` guarantees. */
  predicate UniqueKeys(es: seq<Entry>)
  {
    forall i, j | 0 <= i < j < |es| :: es[i].key != es[j].key
  }

  /** Every object in the tree has unique keys and every integer fits a Java `long`:
      the shape of every tree the parser can build. */
  predicate WellFormed(v: Value)
  {
    match v
    case Int(n) => MinLong <= n <= MaxLong
    case Object(es) => UniqueKeys(es) && forall e | e in es :: WellFormed(e.value)
    case Array(xs) => forall x | x in xs :: WellFormed(x)
    case _ => true
  }

  /** The position of key `k` in `es`, or `|es|` when it is absent. */
  function IndexOf(es: seq<Entry>, k: string): (i: nat)
    ensures i <= |es|
    ensures i < |es| ==> es[i].key == k
    ensures forall j | 0 <= j < i :: es[j].key != k
  {
    if es == [] then 0
    else if es[0].key == k then 0
    else 1 + IndexOf(es[1..], k)
  }

  /** `LinkedHashMap.put(k, v)`: a key already present keeps its position and
      takes the new value; a new key goes to the end. */
  function Put(es: seq<Entry>, k: string, v: Value): (r: seq<Entry>)
    ensures |es| <= |r| <= |es| + 1
    ensures forall i | 0 <= i < |es| :: r[i].key == es[i].key
    ensures forall i | 0 <= i < |es| :: es[i].key != k ==> r[i] == es[i]
    ensures (exists i | 0 <= i < |es| :: es[i].key == k) ==> |r| == |es|
    ensures (forall i | 0 <= i < |es| :: es[i].key != k) ==> r == es + [Entry(k, v)]
    ensures UniqueKeys(es) ==> UniqueKeys(r)
    ensures UniqueKeys(es) ==> forall i | 0 <= i < |r| :: r[i].key == k ==> r[i].value == v
    ensures forall e | e in r :: e in es || e == Entry(k, v)
  {
    var i := IndexOf(es, k);
    if i < |es| then es[i := Entry(k, v)] else es + [Entry(k, v)]
  }

  /** The object built by putting `ps` one after the other into an empty map. */
  function PutAll(ps: seq<Entry>): seq<Entry>
  {
    if ps == [] then [] else
    var last := ps[|ps| - 1];
    Put(PutAll(ps[..|ps| - 1]), last.key, last.value)
  }

  /** Putting one more pair is one more `Put`. */
  lemma PutAllSnoc(ps: seq<Entry>, e: Entry)
    ensures PutAll(ps + [e]) == Put(PutAll(ps), e.key, e.value)
  {
    assert (ps + [e])[..|ps|] == ps;
  }

  /** The keys of `ks` in order of first occurrence. */
  function FirstOccurrences(ks: seq<string>): seq<string>
  {
    if ks == [] then [] else
    var d := FirstOccurrences(ks[..|ks| - 1]);
    if ks[|ks| - 1] in ks[..|ks| - 1] then d else d + [ks[|ks| - 1]]
  }

  /** The value of the last pair in `ps` whose key is `k`. */
  function LastValue(ps: seq<Entry>, k: string): Option<Value>
  {
    if ps == [] then None
    else if ps[|ps| - 1].key == k then Some(ps[|ps| - 1].value)
    else LastValue(ps[..|ps| - 1], k)
  }

  lemma FirstOccurrencesSameMembers(ks: seq<string>)
    ensures forall k :: k in FirstOccurrences(ks) <==> k in ks
  {
    if ks != [] {
      FirstOccurrencesSameMembers(ks[..|ks| - 1]);
      assert ks == ks[..|ks| - 1] + [ks[|ks| - 1]];
    }
  }

  lemma KeysOfPut(es: seq<Entry>, k: string, v: Value)
    ensures Keys(Put(es, k, v)) == if k in Keys(es) then Keys(es) else Keys(es) + [k]
  {
    var r := Put(es, k, v);
    var i := IndexOf(es, k);
    var ks, rs := Keys(es), Keys(r);
    if i < |es| {
      assert ks[i] == k;
      assert r == es[i := Entry(k, v)];
      assert forall j | 0 <= j < |rs| :: rs[j] == ks[j];
    } else {
      assert k !in ks;
      assert r == es + [Entry(k, v)];
      assert forall j | 0 <= j < |rs| :: rs[j] == (ks + [k])[j];
    }
  }

  lemma KeysSnoc(ps: seq<Entry>)
    requires ps != []
    ensures Keys(ps) == Keys(ps[..|ps| - 1]) + [ps[|ps| - 1].key]
  {
    var init := ps[..|ps| - 1];
    var ks, rs := Keys(ps), Keys(init) + [ps[|ps| - 1].key];
    assert |ks| == |rs|;
    forall j | 0 <= j < |ks|
      ensures ks[j] == rs[j]
    {
      if j < |init| {
        assert rs[j] == Keys(init)[j] == init[j].key == ps[j].key;
      }
    }
  }

  lemma FirstOccurrencesSnoc(ks: seq<string>)
    requires ks != []
    ensures FirstOccurrences(ks) ==
      var init := ks[..|ks| - 1];
      if ks[|ks| - 1] in init then FirstOccurrences(init) else FirstOccurrences(init) + [ks[|ks| - 1]]
  {
  }

  /** Putting pairs one by one into a `LinkedHashMap` lists each key once, in the
      order of its first insertion. */
  lemma {:induction false} PutAllKeyOrder(ps: seq<Entry>)
    ensures Keys(PutAll(ps)) == FirstOccurrences(Keys(ps))
    ensures UniqueKeys(PutAll(ps))
  {
    if ps != [] {
      var init, last := ps[..|ps| - 1], ps[|ps| - 1];
      PutAllKeyOrder(init);
      KeysSnoc(ps);
      FirstOccurrencesSnoc(Keys(ps));
      FirstOccurrencesSameMembers(Keys(init));
      KeysOfPut(PutAll(init), last.key, last.value);
    }
  }

  /** Each key of an object built by successive puts holds the value of its
      last insertion. */
  lemma {:induction false} PutAllLastValueWins(ps: seq<Entry>)
    ensures forall e | e in PutAll(ps) :: LastValue(ps, e.key) == Some(e.value)
  {
    if ps != [] {
      var init, last := ps[..|ps| - 1], ps[|ps| - 1];
      PutAllLastValueWins(init);
      PutAllKeyOrder(init);
      var m := PutAll(init);
      forall e | e in PutAll(ps) ensures LastValue(ps, e.key) == Some(e.value) {
        var i :| 0 <= i < |PutAll(ps)| && PutAll(ps)[i] == e;
        if e.key != last.key {
          assert i < |m| && m[i] == e;
        }
      }
    }
  }

  lemma WellFormedAppend(xs: seq<Value>, v: Value)
    requires WellFormed(Array(xs)) && WellFormed(v)
    ensures WellFormed(Array(xs + [v]))
  {
    forall x | x in xs + [v] ensures WellFormed(x) {
      if x != v { assert x in xs; }
    }
  }

  lemma EntriesWellFormedAppend(es: seq<Entry>, e: Entry)
    requires (forall x | x in es :: WellFormed(x.value)) && WellFormed(e.value)
    ensures forall x | x in es + [e] :: WellFormed(x.value)
  {
    forall x | x in es + [e] ensures WellFormed(x.value) {
      if x != e { assert x in es; }
    }
  }

  /** An object built from pairs whose values are well formed is well formed. */
  lemma {:induction false} PutAllWellFormed(ps: seq<Entry>)
    requires forall x | x in ps :: WellFormed(x.value)
    ensures WellFormed(Object(PutAll(ps)))
  {
    PutAllKeyOrder(ps);
    if ps != [] {
      var init, last := ps[..|ps| - 1], ps[|ps| - 1];
      assert forall x | x in init :: x in ps;
      PutAllWellFormed(init);
      var m := PutAll(init);
      assert forall e | e in m :: WellFormed(e.value);
      assert forall e | e in PutAll(ps) :: e in m || e == Entry(last.key, last.value);
    }
  }

  /** With unique keys, putting the pairs one by one rebuilds them unchanged. */
  lemma {:induction false} PutAllUnique(ps: seq<Entry>)
    requires UniqueKeys(ps)
    ensures PutAll(ps) == ps
  {
    if ps != [] {
      var init, last := ps[..|ps| - 1], ps[|ps| - 1];
      PutAllUnique(init);
      assert forall i | 0 <= i < |init| :: init[i].key != last.key;
    }
  }
}
