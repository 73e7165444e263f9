/**
 * The two Open Drone ID decoders that call each other, over a stretch of memory:
 * a message may be a pack of messages, and a pack refuses to hold a pack. What
 * one ordinary message does to the data is a parameter here.
 */
module OdidControl {
  import opened Bytes
  import opened OdidMessages

  const BASIC_IDS := 2
  const PACK_MAX := 9

  /** The data after one message that is not a pack, and the message's kind if it was accepted. */
  type Single<!S> = (S, seq<byte>) -> (S, Option<nat>)

  function KindAt(mem: seq<byte>, base: nat, i: nat): nat
    requires base + MESSAGE * i < |mem|
  {
    mem[base + MESSAGE * i] / 16
  }

  /** How many of the `n` messages from `base` on are of a kind. */
  function CountKind(mem: seq<byte>, base: nat, n: nat, kind: nat): (c: nat)
    requires base + MESSAGE * n <= |mem|
    ensures c <= n
  {
    if n == 0 then 0 else CountKind(mem, base, n - 1, kind) + if KindAt(mem, base, n - 1) == kind then 1 else 0
  }

  predicate OnlyMessages(mem: seq<byte>, base: nat, n: nat)
    requires base + MESSAGE * n <= |mem|
  {
    forall i :: 0 <= i < n ==> KindAt(mem, base, i) <= OPERATOR_ID
  }

  /** A pack holds one to nine messages, none of them a pack, and of most kinds one at most. */
  predicate ContentOk(mem: seq<byte>, base: nat, n: nat)
    requires base + MESSAGE * n <= |mem|
  {
    && 1 <= n <= PACK_MAX && OnlyMessages(mem, base, n)
    && CountKind(mem, base, n, BASIC_ID) <= BASIC_IDS && CountKind(mem, base, n, LOCATION) <= 1
    && CountKind(mem, base, n, AUTH) <= AUTH_PAGES && CountKind(mem, base, n, SELF_ID) <= 1
    && CountKind(mem, base, n, SYSTEM) <= 1 && CountKind(mem, base, n, OPERATOR_ID) <= 1
  }

  /** The content check's loop: six counters, and an early refusal of any other kind. */
  method CheckContent(mem: seq<byte>, base: nat, n: nat) returns (ok: bool)
    requires base + MESSAGE * n <= |mem|
    ensures ok == ContentOk(mem, base, n)
  {
    if n == 0 || n > PACK_MAX { return false; }
    var counts := new nat[6](_ => 0);
    for i := 0 to n
      invariant OnlyMessages(mem, base, i)
      invariant forall k :: 0 <= k < 6 ==> counts[k] == CountKind(mem, base, i, k)
    {
      var kind := KindAt(mem, base, i);
      if kind > OPERATOR_ID { return false; }
      counts[kind] := counts[kind] + 1;
    }
    ok := counts[BASIC_ID] <= BASIC_IDS && counts[LOCATION] <= 1 && counts[AUTH] <= AUTH_PAGES
          && counts[SELF_ID] <= 1 && counts[SYSTEM] <= 1 && counts[OPERATOR_ID] <= 1;
  }

  /** What a caller must have in memory: a message, or a pack with all the messages it announces. */
  predicate Readable(mem: seq<byte>, off: nat) {
    && off + MESSAGE <= |mem|
    && (mem[off] / 16 == PACKED ==> off + 3 + MESSAGE * mem[off + 2] <= |mem|)
  }

  /** The decoder of any message. It calls the decoder of packs, which calls it again. */
  function DecodeAt<S>(one: Single<S>, s: S, mem: seq<byte>, off: nat): (S, Option<nat>)
    requires Readable(mem, off)
    decreases if mem[off] / 16 == PACKED then 2 else 0
  {
    if mem[off] / 16 == PACKED then
      var (s1, ok) := DecodePackAt(one, s, mem, off);
      (s1, if ok then Some(PACKED) else None)
    else one(s, mem[off..off + MESSAGE])
  }

  function DecodePackAt<S>(one: Single<S>, s: S, mem: seq<byte>, off: nat): (S, bool)
    requires off + 3 <= |mem| && off + 3 + MESSAGE * mem[off + 2] <= |mem|
    decreases 1
  {
    var n := mem[off + 2];
    if mem[off] / 16 != PACKED || mem[off + 1] != MESSAGE || !ContentOk(mem, off + 3, n) then (s, false)
    else (DecodeEach(one, s, mem, off + 3, 0, n), true)
  }

  /** The pack's loop. No message it meets is a pack, which is what makes the recursion end. */
  function DecodeEach<S>(one: Single<S>, s: S, mem: seq<byte>, base: nat, i: nat, n: nat): S
    requires i <= n && base + MESSAGE * n <= |mem| && OnlyMessages(mem, base, n)
    decreases 1, n - i
  {
    if i == n then s
    else
      assert KindAt(mem, base, i) <= OPERATOR_ID;
      DecodeEach(one, DecodeAt(one, s, mem, base + MESSAGE * i).0, mem, base, i + 1, n)
  }

  /** Decoding messages one after the other. */
  function Fold<S>(one: Single<S>, s: S, msgs: seq<seq<byte>>): S
    decreases |msgs|
  {
    if msgs == [] then s else one(Fold(one, s, msgs[..|msgs| - 1]), msgs[|msgs| - 1]).0
  }

  lemma FoldSnoc<S>(one: Single<S>, s: S, msgs: seq<seq<byte>>, m: seq<byte>)
    ensures Fold(one, s, msgs + [m]) == one(Fold(one, s, msgs), m).0
  {
    assert (msgs + [m])[..|msgs|] == msgs;
  }

  /** The messages of a pack, as they stand in memory. */
  function MessagesAt(mem: seq<byte>, base: nat, n: nat): (ms: seq<seq<byte>>)
    requires base + MESSAGE * n <= |mem|
    ensures |ms| == n
  {
    if n == 0 then [] else MessagesAt(mem, base, n - 1) + [mem[base + MESSAGE * (n - 1)..base + MESSAGE * n]]
  }

  lemma {:induction false} EachIsFold<S>(one: Single<S>, s: S, mem: seq<byte>, base: nat, i: nat, n: nat)
    requires i <= n && base + MESSAGE * n <= |mem| && OnlyMessages(mem, base, n)
    ensures DecodeEach(one, Fold(one, s, MessagesAt(mem, base, i)), mem, base, i, n)
        == Fold(one, s, MessagesAt(mem, base, n))
    decreases n - i
  {
    if i < n {
      var ms, off := MessagesAt(mem, base, i), base + MESSAGE * i;
      var p, m := Fold(one, s, ms), mem[off..off + MESSAGE];
      assert KindAt(mem, base, i) <= OPERATOR_ID;
      assert DecodeAt(one, p, mem, off) == one(p, m);
      FoldSnoc(one, s, ms, m);
      assert MessagesAt(mem, base, i + 1) == ms + [m];
      EachIsFold(one, s, mem, base, i + 1, n);
    }
  }

  /** An accepted pack decodes to the fold of the single-message decoder; a refused one changes nothing. */
  lemma PackIsFold<S>(one: Single<S>, s: S, mem: seq<byte>, off: nat)
    requires off + 3 <= |mem| && off + 3 + MESSAGE * mem[off + 2] <= |mem|
    ensures var (s1, ok) := DecodePackAt(one, s, mem, off);
            && (ok <==> mem[off] / 16 == PACKED && mem[off + 1] == MESSAGE && ContentOk(mem, off + 3, mem[off + 2]))
            && s1 == if ok then Fold(one, s, MessagesAt(mem, off + 3, mem[off + 2])) else s
  {
    if ContentOk(mem, off + 3, mem[off + 2]) {
      EachIsFold(one, s, mem, off + 3, 0, mem[off + 2]);
    }
  }

  /** In an accepted pack every message goes straight to the single-message decoder: the recursion is one level deep. */
  lemma NoNestedPacks<S>(one: Single<S>, s: S, p: S, mem: seq<byte>, off: nat, i: nat)
    requires off + 3 <= |mem| && off + 3 + MESSAGE * mem[off + 2] <= |mem| && i < mem[off + 2]
    requires DecodePackAt(one, s, mem, off).1
    ensures var at := off + 3 + MESSAGE * i;
            && Readable(mem, at) && DecodeAt(one, p, mem, at) == one(p, mem[at..at + MESSAGE])
            && MessagesAt(mem, off + 3, mem[off + 2])[i] == mem[at..at + MESSAGE]
  {
    var n := mem[off + 2];
    assert MESSAGE * (i + 1) <= MESSAGE * n;
    assert KindAt(mem, off + 3, i) <= OPERATOR_ID;
    MessageThere(mem, off + 3, n, i);
  }

  lemma {:induction false} MessageThere(mem: seq<byte>, base: nat, n: nat, i: nat)
    requires base + MESSAGE * n <= |mem| && i < n
    ensures MessagesAt(mem, base, n)[i] == mem[base + MESSAGE * i..base + MESSAGE * (i + 1)]
  {
    if i + 1 < n {
      MessageThere(mem, base, n - 1, i);
    }
  }

  /** The places of the messages of a kind. */
  ghost function OfKind(mem: seq<byte>, base: nat, n: nat, kind: nat): set<nat>
    requires base + 25 * n <= |mem|
  {
    set i: nat | i < n && KindAt(mem, base, i) == kind
  }

  lemma {:induction false} CountIsSize(mem: seq<byte>, base: nat, n: nat, kind: nat)
    requires base + 25 * n <= |mem|
    ensures CountKind(mem, base, n, kind) == |OfKind(mem, base, n, kind)|
  {
    if n > 0 {
      CountIsSize(mem, base, n - 1, kind);
      var before, all := OfKind(mem, base, n - 1, kind), OfKind(mem, base, n, kind);
      assert all == if KindAt(mem, base, n - 1) == kind then before + {n - 1} else before;
    }
  }

  /**
   * The check passes one to nine messages, of the six kinds only: at most two identifications, sixteen pages of
   * authentication, and one of each other kind.
   */
  lemma ContentExactly(mem: seq<byte>, base: nat, n: nat)
    requires base + 25 * n <= |mem|
    ensures ContentOk(mem, base, n) <==>
              && 1 <= n <= 9 && (forall i :: 0 <= i < n ==> KindAt(mem, base, i) <= 5)
              && |OfKind(mem, base, n, 0)| <= 2 && |OfKind(mem, base, n, 1)| <= 1 && |OfKind(mem, base, n, 2)| <= 16
              && |OfKind(mem, base, n, 3)| <= 1 && |OfKind(mem, base, n, 4)| <= 1 && |OfKind(mem, base, n, 5)| <= 1
  {
    CountIsSize(mem, base, n, 0);
    CountIsSize(mem, base, n, 1);
    CountIsSize(mem, base, n, 2);
    CountIsSize(mem, base, n, 3);
    CountIsSize(mem, base, n, 4);
    CountIsSize(mem, base, n, 5);
  }
}
