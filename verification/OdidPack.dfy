/**
 * Message packs: building one out of a drone's data, and what a receiver's data
 * are after decoding it.
 */
module OdidPack {
  import opened Bytes
  import opened OdidQuant
  import opened OdidMessages
  import opened OdidControl

  /** A drone's data, each part with its validity flag. */
  datatype Uas = Uas(
    basic: seq<BasicId>, basicValid: seq<bool>, location: Location, locationValid: bool,
    auth: seq<Auth>, authValid: seq<bool>, selfId: SelfId, selfIdValid: bool,
    system: System, systemValid: bool, operatorId: OperatorId, operatorIdValid: bool)

  ghost predicate Typed(u: Uas) {
    && |u.basic| == |u.basicValid| == BASIC_IDS && |u.auth| == |u.authValid| == AUTH_PAGES
    && (forall i :: 0 <= i < BASIC_IDS ==> BasicIdTyped(u.basic[i]))
    && (forall i :: 0 <= i < AUTH_PAGES ==> AuthTyped(u.auth[i]))
    && SelfIdTyped(u.selfId) && SystemTyped(u.system) && OperatorIdTyped(u.operatorId)
  }

  const NO_BASIC := BasicId(0, 0, Zeros(21))
  const NO_AUTH := Auth(0, 0, 0, 0, 0, Zeros(24))
  const NO_LOCATION := Location(0, 361.0, 255.0, 63.0, 0.0, 0.0, -1000.0, -1000.0, 0, -1000.0, 0, 0, 0, 0, 0, 0.0)
  const NO_SYSTEM := System(0, 0, 0.0, 0.0, 1, 0, -1000.0, -1000.0, 0, 0, -1000.0, 0)

  /** Nothing valid, every field at its default. */
  function Init(): Uas {
    Uas(Repeat(NO_BASIC, BASIC_IDS), Repeat(false, BASIC_IDS), NO_LOCATION, false,
        Repeat(NO_AUTH, AUTH_PAGES), Repeat(false, AUTH_PAGES), SelfId(0, Zeros(24)), false,
        NO_SYSTEM, false, OperatorId(0, Zeros(21)), false)
  }

  // ------------------------------------------------------------------
  // Decoding one message
  // ------------------------------------------------------------------

  /** The first slot that is free or holds an id of the same type. */
  function SlotFor(basic: seq<BasicId>, idType: nat, i: nat): (r: nat)
    requires i <= |basic|
    ensures i <= r <= |basic| && (r < |basic| ==> basic[r].idType == 0 || basic[r].idType == idType)
    ensures forall k :: i <= k < r ==> basic[k].idType != 0 && basic[k].idType != idType
    decreases |basic| - i
  {
    if i == |basic| || basic[i].idType == 0 || basic[i].idType == idType then i else SlotFor(basic, idType, i + 1)
  }

  predicate Shaped(u: Uas) {
    |u.basic| == |u.basicValid| == BASIC_IDS && |u.auth| == |u.authValid| == AUTH_PAGES
  }

  function StoreBasic(u: Uas, d: BasicId): (Uas, Option<nat>)
    requires Shaped(u)
  {
    var i := SlotFor(u.basic, d.idType, 0);
    if i < BASIC_IDS then (u.(basic := u.basic[i := d], basicValid := u.basicValid[i := true]), Some(BASIC_ID))
        else (u, None)
  }

  function StoreAuth(u: Uas, m: seq<byte>): (Uas, Option<nat>)
    requires Shaped(u) && |m| == MESSAGE
  {
    var page := m[1] % 16;
    if AuthFits(m) then
      (u.(auth := u.auth[page := DecodeAuth(u.auth[page], m)], authValid := u.authValid[page := true]), Some(AUTH))
    else (u, None)
  }

  /** The data after one message that is not a pack, and the message's kind if it was accepted. */
  function DecodeOne(u: Uas, m: seq<byte>): (Uas, Option<nat>) {
    if |m| != MESSAGE || !Shaped(u) then (u, None)
    else if Kind(m) == BASIC_ID then StoreBasic(u, DecodeBasicId(m))
    else if Kind(m) == LOCATION then (u.(location := DecodeLocation(m), locationValid := true), Some(LOCATION))
    else if Kind(m) == AUTH then StoreAuth(u, m)
    else if Kind(m) == SELF_ID then (u.(selfId := DecodeSelfId(m), selfIdValid := true), Some(SELF_ID))
    else if Kind(m) == SYSTEM then (u.(system := DecodeSystem(m), systemValid := true), Some(SYSTEM))
    else if Kind(m) == OPERATOR_ID then
        (u.(operatorId := DecodeOperatorId(m), operatorIdValid := true), Some(OPERATOR_ID))
    else (u, None)
  }

  // ------------------------------------------------------------------
  // Building a pack
  // ------------------------------------------------------------------

  /** One more message, if the part is valid and can be encoded. A tenth valid part fails the whole pack. */
  function Put(acc: Option<seq<seq<byte>>>, valid: bool, enc: Option<seq<byte>>): Option<seq<seq<byte>>> {
    if acc.None? || !valid then acc
    else if |acc.value| >= PACK_MAX then None
    else if enc.Some? then Some(acc.value + [enc.value]) else acc
  }

  function TryBasic(d: BasicId): Option<seq<byte>>
    requires BasicIdTyped(d)
  {
    if BasicIdOk(d) then Some(EncodeBasicId(d)) else None
  }

  function TryLocation(d: Location): Option<seq<byte>> {
    if LocationOk(d) then Some(EncodeLocation(d)) else None
  }

  function TryAuth(d: Auth): Option<seq<byte>>
    requires AuthTyped(d)
  {
    if AuthOk(d) then Some(EncodeAuth(d)) else None
  }

  function TrySelfId(d: SelfId): Option<seq<byte>>
    requires SelfIdTyped(d)
  {
    if SelfIdOk(d) then Some(EncodeSelfId(d)) else None
  }

  function TrySystem(d: System): Option<seq<byte>>
    requires SystemTyped(d)
  {
    if SystemOk(d) then Some(EncodeSystem(d)) else None
  }

  function TryOperatorId(d: OperatorId): Option<seq<byte>>
    requires OperatorIdTyped(d)
  {
    if OperatorIdOk(d) then Some(EncodeOperatorId(d)) else None
  }

  ghost function GatherBasic(u: Uas, i: nat): Option<seq<seq<byte>>>
    requires Typed(u) && i <= BASIC_IDS
  {
    if i == 0 then Some([]) else Put(GatherBasic(u, i - 1), u.basicValid[i - 1], TryBasic(u.basic[i - 1]))
  }

  ghost function GatherAuth(u: Uas, i: nat): Option<seq<seq<byte>>>
    requires Typed(u) && i <= AUTH_PAGES
  {
    if i == 0 then Put(GatherBasic(u, BASIC_IDS), u.locationValid, TryLocation(u.location))
    else Put(GatherAuth(u, i - 1), u.authValid[i - 1], TryAuth(u.auth[i - 1]))
  }

  ghost function GatherSelfId(u: Uas): Option<seq<seq<byte>>>
    requires Typed(u)
  {
    Put(GatherAuth(u, AUTH_PAGES), u.selfIdValid, TrySelfId(u.selfId))
  }

  ghost function GatherSystem(u: Uas): Option<seq<seq<byte>>>
    requires Typed(u)
  {
    Put(GatherSelfId(u), u.systemValid, TrySystem(u.system))
  }

  /** The messages of a drone's data, in the order the builder takes them. */
  ghost function Gather(u: Uas): Option<seq<seq<byte>>>
    requires Typed(u)
  {
    Put(GatherSystem(u), u.operatorIdValid, TryOperatorId(u.operatorId))
  }

  // ------------------------------------------------------------------
  // What a decoder makes of the messages gathered
  // ------------------------------------------------------------------

  /** Each part that was sent, decoded; every other part at its default. */
  ghost predicate Received(u: Uas, r: Uas)
    requires Typed(u) && Shaped(r)
  {
    && BasicReceived(u, r, BASIC_IDS)
    && r.locationValid == (u.locationValid && LocationOk(u.location))
    && r.location == (if r.locationValid then LocationKept(u.location) else NO_LOCATION)
    && AuthReceived(u, r, AUTH_PAGES)
    && r.selfIdValid == (u.selfIdValid && SelfIdOk(u.selfId))
    && r.selfId == (if r.selfIdValid then SelfIdKept(u.selfId) else SelfId(0, Zeros(24)))
    && r.systemValid == (u.systemValid && SystemOk(u.system))
    && r.system == (if r.systemValid then SystemKept(u.system) else NO_SYSTEM)
    && r.operatorIdValid == (u.operatorIdValid && OperatorIdOk(u.operatorId))
    && r.operatorId == (if r.operatorIdValid then OperatorKept(u.operatorId) else OperatorId(0, Zeros(21)))
  }

  /** The ids sent among the first `i`, in order. */
  ghost function Ids(u: Uas, i: nat): (ds: seq<BasicId>)
    requires Typed(u) && i <= BASIC_IDS
    ensures |ds| <= i
  {
    if i == 0 then []
    else Ids(u, i - 1) + if u.basicValid[i - 1] && BasicIdOk(u.basic[i - 1]) then [IdKept(u.basic[i - 1])] else []
  }

  function IdKept(d: BasicId): BasicId { d.(uasId := Padded(d.uasId, 20) + [0]) }

  function SelfIdKept(d: SelfId): SelfId { d.(desc := Padded(d.desc, 23) + [0]) }

  function OperatorKept(d: OperatorId): OperatorId { d.(id := Padded(d.id, 20) + [0]) }

  /** The ids fill the slots from the first on. */
  ghost predicate BasicReceived(u: Uas, r: Uas, i: nat)
    requires Typed(u) && Shaped(r) && i <= BASIC_IDS
  {
    var ds := Ids(u, i);
    forall k :: 0 <= k < BASIC_IDS ==>
      && r.basicValid[k] == (k < |ds|)
      && r.basic[k] == if k < |ds| then ds[k] else NO_BASIC
  }

  function PageKept(d: Auth): Auth
    requires |d.data| == 24
  {
    if d.page == 0 then d.(data := d.data[..PAGE_ZERO_DATA] + Zeros(7))
    else NO_AUTH.(page := d.page, authType := d.authType, data := d.data[..PAGE_DATA] + Zeros(1))
  }

  ghost predicate AuthReceived(u: Uas, r: Uas, i: nat)
    requires Typed(u) && Shaped(r) && i <= AUTH_PAGES
  {
    forall k :: 0 <= k < AUTH_PAGES ==>
      && r.authValid[k] == (k < i && u.authValid[k] && AuthOk(u.auth[k]))
      && r.auth[k] == if r.authValid[k] then PageKept(u.auth[k]) else NO_AUTH
  }

  /** What the receiver needs of the sender: ids of different types, and pages at their own index. */
  ghost predicate Distinguishable(u: Uas)
    requires Typed(u)
  {
    && (forall i :: 0 <= i < BASIC_IDS && u.basicValid[i] && BasicIdOk(u.basic[i]) ==> u.basic[i].idType != 0)
    && (u.basicValid[0] && u.basicValid[1] && BasicIdOk(u.basic[0]) && BasicIdOk(u.basic[1]) ==>
          u.basic[0].idType != u.basic[1].idType)
    && (forall i :: 0 <= i < AUTH_PAGES && u.authValid[i] ==> u.auth[i].page == i)
  }

  ghost predicate Sized(msgs: seq<seq<byte>>) {
    forall m :: m in msgs ==> |m| == MESSAGE
  }

  /** A receiver's data with nothing in them. */
  ghost predicate Blank(s: Uas) {
    && Shaped(s) && !s.locationValid && !s.selfIdValid && !s.systemValid && !s.operatorIdValid
    && (forall i :: 0 <= i < BASIC_IDS ==> s.basic[i] == NO_BASIC && !s.basicValid[i])
    && (forall i :: 0 <= i < AUTH_PAGES ==> s.auth[i] == NO_AUTH && !s.authValid[i])
    && s.location == NO_LOCATION && s.selfId == SelfId(0, Zeros(24)) && s.system == NO_SYSTEM
    && s.operatorId == OperatorId(0, Zeros(21))
  }

  lemma InitIsBlank()
    ensures Blank(Init())
  {
  }

  /** What decoding makes of the messages gathered so far. */
  ghost function After(s: Uas, msgs: seq<seq<byte>>): Uas { Fold(DecodeOne, s, msgs) }

  lemma PutDecodes(s: Uas, acc: seq<seq<byte>>, valid: bool, enc: Option<seq<byte>>)
    requires Sized(acc) && (enc.Some? ==> |enc.value| == MESSAGE) && Put(Some(acc), valid, enc).Some?
    ensures var r := Put(Some(acc), valid, enc).value;
            && Sized(r)
            && After(s, r) == if valid && enc.Some? then DecodeOne(After(s, acc), enc.value).0 else After(s, acc)
  {
    if valid && enc.Some? {
      FoldSnoc(DecodeOne, s, acc, enc.value);
    }
  }

  // --- the ids ---

  /** Only the ids have been received so far. */
  ghost predicate OnlyIds(u: Uas, s: Uas, r: Uas, i: nat)
    requires Typed(u) && i <= BASIC_IDS
  {
    Shaped(r) && BasicReceived(u, r, i) && r == s.(basic := r.basic, basicValid := r.basicValid)
  }

  lemma BasicDecodes(r: Uas, m: seq<byte>, d: BasicId)
    requires Shaped(r) && |m| == MESSAGE && Kind(m) == BASIC_ID && DecodeBasicId(m) == d
    ensures DecodeOne(r, m) == StoreBasic(r, d)
  {
  }

  lemma FreeSlot(u: Uas, r: Uas, i: nat)
    requires Typed(u) && Distinguishable(u) && i < BASIC_IDS && Shaped(r) && BasicReceived(u, r, i)
    requires u.basicValid[i] && BasicIdOk(u.basic[i])
    ensures SlotFor(r.basic, u.basic[i].idType, 0) == |Ids(u, i)|
  {
    if i == 1 && |Ids(u, 1)| == 1 {
      assert Ids(u, 0) == [] && Ids(u, 1)[0] == IdKept(u.basic[0]);
    }
  }

  lemma IdStored(u: Uas, s: Uas, r: Uas, i: nat)
    requires Typed(u) && Distinguishable(u) && i < BASIC_IDS && OnlyIds(u, s, r, i)
    requires u.basicValid[i] && BasicIdOk(u.basic[i])
    ensures OnlyIds(u, s, StoreBasic(r, IdKept(u.basic[i])).0, i + 1)
  {
    FreeSlot(u, r, i);
    assert Ids(u, i + 1) == Ids(u, i) + [IdKept(u.basic[i])];
  }

  lemma BasicPut(u: Uas, s: Uas, acc: seq<seq<byte>>, i: nat)
    requires Typed(u) && Distinguishable(u) && i < BASIC_IDS && Sized(acc) && OnlyIds(u, s, After(s, acc), i)
    requires Put(Some(acc), u.basicValid[i], TryBasic(u.basic[i])).Some?
    ensures var r := Put(Some(acc), u.basicValid[i], TryBasic(u.basic[i])).value;
            Sized(r) && OnlyIds(u, s, After(s, r), i + 1)
  {
    PutDecodes(s, acc, u.basicValid[i], TryBasic(u.basic[i]));
    if u.basicValid[i] && BasicIdOk(u.basic[i]) {
      BasicIdRoundTrip(u.basic[i]);
      BasicDecodes(After(s, acc), EncodeBasicId(u.basic[i]), IdKept(u.basic[i]));
      IdStored(u, s, After(s, acc), i);
    } else {
      assert Ids(u, i + 1) == Ids(u, i);
    }
  }

  lemma {:induction false} BasicStage(u: Uas, s: Uas, i: nat)
    requires Typed(u) && Distinguishable(u) && i <= BASIC_IDS && GatherBasic(u, i).Some? && Blank(s)
    ensures Sized(GatherBasic(u, i).value) && OnlyIds(u, s, After(s, GatherBasic(u, i).value), i)
  {
    if i == 0 {
      assert GatherBasic(u, 0).value == [];
    } else {
      BasicStage(u, s, i - 1);
      BasicPut(u, s, GatherBasic(u, i - 1).value, i - 1);
    }
  }

  // --- each other part ---

  ghost function WithLocation(u: Uas, r: Uas): Uas {
    if u.locationValid && LocationOk(u.location) then
        r.(location := LocationKept(u.location), locationValid := true) else r
  }

  ghost function WithPage(u: Uas, r: Uas, i: nat): Uas
    requires Typed(u) && Shaped(r) && i < AUTH_PAGES
  {
    if u.authValid[i] && AuthOk(u.auth[i]) then
      r.(auth := r.auth[i := PageKept(u.auth[i])], authValid := r.authValid[i := true])
    else r
  }

  ghost function WithSelfId(u: Uas, r: Uas): Uas {
    if u.selfIdValid && SelfIdOk(u.selfId) then r.(selfId := SelfIdKept(u.selfId), selfIdValid := true) else r
  }

  ghost function WithSystem(u: Uas, r: Uas): Uas {
    if u.systemValid && SystemOk(u.system) then r.(system := SystemKept(u.system), systemValid := true) else r
  }

  ghost function WithOperatorId(u: Uas, r: Uas): Uas {
    if u.operatorIdValid && OperatorIdOk(u.operatorId) then
        r.(operatorId := OperatorKept(u.operatorId), operatorIdValid := true) else r
  }

  lemma LocationDecodes(r: Uas, m: seq<byte>, d: Location)
    requires Shaped(r) && |m| == MESSAGE && Kind(m) == LOCATION && DecodeLocation(m) == d
    ensures DecodeOne(r, m).0 == r.(location := d, locationValid := true)
  {
  }

  lemma PageNumber(d: Auth)
    requires AuthTyped(d) && AuthOk(d)
    ensures EncodeAuth(d)[1] % 16 == d.page
  {
    Nibbles(d.page, d.authType);
  }

  lemma AuthDecodes(r: Uas, m: seq<byte>, page: nat, d: Auth)
    requires Shaped(r) && |m| == MESSAGE && Kind(m) == AUTH && AuthFits(m) && page == m[1] % 16
    requires DecodeAuth(r.auth[page], m) == d
    ensures DecodeOne(r, m).0 == r.(auth := r.auth[page := d], authValid := r.authValid[page := true])
  {
  }

  lemma SelfIdDecodes(r: Uas, m: seq<byte>, d: SelfId)
    requires Shaped(r) && |m| == MESSAGE && Kind(m) == SELF_ID && DecodeSelfId(m) == d
    ensures DecodeOne(r, m).0 == r.(selfId := d, selfIdValid := true)
  {
  }

  lemma SystemDecodes(r: Uas, m: seq<byte>, d: System)
    requires Shaped(r) && |m| == MESSAGE && Kind(m) == SYSTEM && DecodeSystem(m) == d
    ensures DecodeOne(r, m).0 == r.(system := d, systemValid := true)
  {
  }

  lemma OperatorIdDecodes(r: Uas, m: seq<byte>, d: OperatorId)
    requires Shaped(r) && |m| == MESSAGE && Kind(m) == OPERATOR_ID && DecodeOperatorId(m) == d
    ensures DecodeOne(r, m).0 == r.(operatorId := d, operatorIdValid := true)
  {
  }

  lemma LocationPut(u: Uas, s: Uas, acc: seq<seq<byte>>)
    requires Sized(acc) && Shaped(After(s, acc)) && Put(Some(acc), u.locationValid, TryLocation(u.location)).Some?
    ensures var r := Put(Some(acc), u.locationValid, TryLocation(u.location)).value;
            Sized(r) && After(s, r) == WithLocation(u, After(s, acc))
  {
    PutDecodes(s, acc, u.locationValid, TryLocation(u.location));
    if u.locationValid && LocationOk(u.location) {
      LocationRoundTrip(u.location);
      LocationDecodes(After(s, acc), EncodeLocation(u.location), LocationKept(u.location));
    }
  }

  lemma PagePut(u: Uas, s: Uas, acc: seq<seq<byte>>, i: nat)
    requires Typed(u) && Distinguishable(u) && i < AUTH_PAGES && Sized(acc)
    requires Shaped(After(s, acc)) && After(s, acc).auth[i] == NO_AUTH
    requires Put(Some(acc), u.authValid[i], TryAuth(u.auth[i])).Some?
    ensures var r := Put(Some(acc), u.authValid[i], TryAuth(u.auth[i])).value;
            Sized(r) && After(s, r) == WithPage(u, After(s, acc), i)
  {
    PutDecodes(s, acc, u.authValid[i], TryAuth(u.auth[i]));
    if u.authValid[i] && AuthOk(u.auth[i]) {
      AuthRoundTrip(u.auth[i], NO_AUTH);
      PageNumber(u.auth[i]);
      AuthDecodes(After(s, acc), EncodeAuth(u.auth[i]), i, PageKept(u.auth[i]));
    }
  }

  lemma SelfIdPut(u: Uas, s: Uas, acc: seq<seq<byte>>)
    requires Typed(u) && Sized(acc) && Shaped(After(s, acc)) && Put(Some(acc), u.selfIdValid, TrySelfId(u.selfId)).Some?
    ensures var r := Put(Some(acc), u.selfIdValid, TrySelfId(u.selfId)).value;
            Sized(r) && After(s, r) == WithSelfId(u, After(s, acc))
  {
    PutDecodes(s, acc, u.selfIdValid, TrySelfId(u.selfId));
    if u.selfIdValid && SelfIdOk(u.selfId) {
      SelfIdRoundTrip(u.selfId);
      SelfIdDecodes(After(s, acc), EncodeSelfId(u.selfId), SelfIdKept(u.selfId));
    }
  }

  lemma SystemPut(u: Uas, s: Uas, acc: seq<seq<byte>>)
    requires Typed(u) && Sized(acc) && Shaped(After(s, acc)) && Put(Some(acc), u.systemValid, TrySystem(u.system)).Some?
    ensures var r := Put(Some(acc), u.systemValid, TrySystem(u.system)).value;
            Sized(r) && After(s, r) == WithSystem(u, After(s, acc))
  {
    PutDecodes(s, acc, u.systemValid, TrySystem(u.system));
    if u.systemValid && SystemOk(u.system) {
      SystemRoundTrip(u.system);
      SystemDecodes(After(s, acc), EncodeSystem(u.system), SystemKept(u.system));
    }
  }

  lemma OperatorIdPut(u: Uas, s: Uas, acc: seq<seq<byte>>)
    requires Typed(u) && Sized(acc) && Shaped(After(s, acc))
        && Put(Some(acc), u.operatorIdValid, TryOperatorId(u.operatorId)).Some?
    ensures var r := Put(Some(acc), u.operatorIdValid, TryOperatorId(u.operatorId)).value;
            Sized(r) && After(s, r) == WithOperatorId(u, After(s, acc))
  {
    PutDecodes(s, acc, u.operatorIdValid, TryOperatorId(u.operatorId));
    if u.operatorIdValid && OperatorIdOk(u.operatorId) {
      OperatorIdRoundTrip(u.operatorId);
      OperatorIdDecodes(After(s, acc), EncodeOperatorId(u.operatorId), OperatorKept(u.operatorId));
    }
  }

  // --- all of them ---

  /** The ids and the location have been received, and the first `i` pages. */
  ghost predicate UpToPage(u: Uas, s: Uas, r: Uas, i: nat)
    requires Typed(u) && i <= AUTH_PAGES
  {
    && Shaped(r) && BasicReceived(u, r, BASIC_IDS) && AuthReceived(u, r, i)
    && r == WithLocation(u, s).(basic := r.basic, basicValid := r.basicValid, auth := r.auth, authValid := r.authValid)
  }

  lemma LocationStored(u: Uas, s: Uas, r: Uas)
    requires Typed(u) && Blank(s) && OnlyIds(u, s, r, BASIC_IDS)
    ensures UpToPage(u, s, WithLocation(u, r), 0)
  {
  }

  lemma PageFree(u: Uas, s: Uas, r: Uas, i: nat)
    requires Typed(u) && i < AUTH_PAGES && UpToPage(u, s, r, i)
    ensures r.auth[i] == NO_AUTH
  {
  }

  lemma PageStored(u: Uas, s: Uas, r: Uas, i: nat)
    requires Typed(u) && i < AUTH_PAGES && UpToPage(u, s, r, i)
    ensures UpToPage(u, s, WithPage(u, r, i), i + 1)
  {
    var r1 := WithPage(u, r, i);
    forall k | 0 <= k < AUTH_PAGES
      ensures r1.authValid[k] == (k < i + 1 && u.authValid[k] && AuthOk(u.auth[k]))
      ensures r1.auth[k] == if r1.authValid[k] then PageKept(u.auth[k]) else NO_AUTH
    {
      assert k != i ==> r1.auth[k] == r.auth[k] && r1.authValid[k] == r.authValid[k];
    }
    assert r1.basic == r.basic && r1.basicValid == r.basicValid;
  }

  lemma PageReached(u: Uas, s: Uas, acc: seq<seq<byte>>, i: nat)
    requires Typed(u) && Distinguishable(u) && i < AUTH_PAGES && Sized(acc) && UpToPage(u, s, After(s, acc), i)
    requires Put(Some(acc), u.authValid[i], TryAuth(u.auth[i])).Some?
    ensures var r := Put(Some(acc), u.authValid[i], TryAuth(u.auth[i])).value;
            Sized(r) && UpToPage(u, s, After(s, r), i + 1)
  {
    PageFree(u, s, After(s, acc), i);
    PagePut(u, s, acc, i);
    PageStored(u, s, After(s, acc), i);
  }

  lemma LocationReached(u: Uas, s: Uas, acc: seq<seq<byte>>)
    requires Typed(u) && Blank(s) && Sized(acc) && OnlyIds(u, s, After(s, acc), BASIC_IDS)
    requires Put(Some(acc), u.locationValid, TryLocation(u.location)).Some?
    ensures var r := Put(Some(acc), u.locationValid, TryLocation(u.location)).value;
            Sized(r) && UpToPage(u, s, After(s, r), 0)
  {
    LocationPut(u, s, acc);
    LocationStored(u, s, After(s, acc));
  }

  lemma AuthStart(u: Uas, s: Uas)
    requires Typed(u) && Distinguishable(u) && GatherAuth(u, 0).Some? && Blank(s)
    ensures Sized(GatherAuth(u, 0).value) && UpToPage(u, s, After(s, GatherAuth(u, 0).value), 0)
  {
    BasicStage(u, s, BASIC_IDS);
    var ids := GatherBasic(u, BASIC_IDS);
    assert GatherAuth(u, 0) == Put(ids, u.locationValid, TryLocation(u.location));
    LocationReached(u, s, ids.value);
  }

  /** The messages of the first `i` pages, if they can all be gathered, decode to what was sent. */
  ghost predicate PagesDecoded(u: Uas, s: Uas, i: nat)
    requires Typed(u) && i <= AUTH_PAGES
  {
    GatherAuth(u, i).Some? ==>
      Sized(GatherAuth(u, i).value) && UpToPage(u, s, After(s, GatherAuth(u, i).value), i)
  }

  lemma PageStage(u: Uas, s: Uas, i: nat)
    requires Typed(u) && Distinguishable(u) && 0 < i <= AUTH_PAGES && PagesDecoded(u, s, i - 1)
    ensures PagesDecoded(u, s, i)
  {
    if GatherAuth(u, i).Some? {
      var acc := PageBefore(u, i);
      var j, r := i - 1, GatherAuth(u, i).value;
      assert GatherAuth(u, j).value == acc && Put(Some(acc), u.authValid[j], TryAuth(u.auth[j])) == Some(r);
      PageReached(u, s, acc, j);
    }
  }

  lemma PageBefore(u: Uas, i: nat) returns (acc: seq<seq<byte>>)
    requires Typed(u) && 0 < i <= AUTH_PAGES && GatherAuth(u, i).Some?
    ensures GatherAuth(u, i - 1) == Some(acc)
    ensures GatherAuth(u, i) == Put(Some(acc), u.authValid[i - 1], TryAuth(u.auth[i - 1]))
  {
    acc := GatherAuth(u, i - 1).value;
  }

  lemma {:induction false} AuthStage(u: Uas, s: Uas, i: nat)
    requires Typed(u) && Distinguishable(u) && i <= AUTH_PAGES && Blank(s)
    ensures PagesDecoded(u, s, i)
  {
    if i > 0 {
      AuthStage(u, s, i - 1);
      PageStage(u, s, i);
    } else if GatherAuth(u, 0).Some? {
      AuthStart(u, s);
    }
  }

  /** The last three parts touch nothing received before. */
  ghost predicate SamePack(r: Uas, r1: Uas) {
    r1 == r.(selfId := r1.selfId, selfIdValid := r1.selfIdValid, system := r1.system, systemValid := r1.systemValid,
             operatorId := r1.operatorId, operatorIdValid := r1.operatorIdValid)
  }

  lemma FrontStored(u: Uas, s: Uas, r: Uas, r1: Uas)
    requires Typed(u) && Blank(s) && UpToPage(u, s, r, AUTH_PAGES) && SamePack(r, r1)
    ensures Shaped(r1) && BasicReceived(u, r1, BASIC_IDS) && AuthReceived(u, r1, AUTH_PAGES)
    ensures r1.locationValid == (u.locationValid && LocationOk(u.location))
    ensures r1.location == (if r1.locationValid then LocationKept(u.location) else NO_LOCATION)
  {
  }

  lemma BackStored(u: Uas, s: Uas, r: Uas)
    requires Typed(u) && Blank(s) && r.selfId == s.selfId && r.system == s.system && r.operatorId == s.operatorId
    requires !r.selfIdValid && !r.systemValid && !r.operatorIdValid
    ensures var r1 := WithOperatorId(u, WithSystem(u, WithSelfId(u, r)));
            && SamePack(r, r1)
            && r1.selfIdValid == (u.selfIdValid && SelfIdOk(u.selfId))
            && r1.selfId == (if r1.selfIdValid then SelfIdKept(u.selfId) else SelfId(0, Zeros(24)))
            && r1.systemValid == (u.systemValid && SystemOk(u.system))
            && r1.system == (if r1.systemValid then SystemKept(u.system) else NO_SYSTEM)
            && r1.operatorIdValid == (u.operatorIdValid && OperatorIdOk(u.operatorId))
            && r1.operatorId == (if r1.operatorIdValid then OperatorKept(u.operatorId) else OperatorId(0, Zeros(21)))
  {
  }

  lemma AllStored(u: Uas, s: Uas, r: Uas)
    requires Typed(u) && Blank(s) && UpToPage(u, s, r, AUTH_PAGES)
    ensures var r1 := WithOperatorId(u, WithSystem(u, WithSelfId(u, r)));
            Shaped(r1) && Received(u, r1)
  {
    BackStored(u, s, r);
    FrontStored(u, s, r, WithOperatorId(u, WithSystem(u, WithSelfId(u, r))));
  }

  /** The last three parts are decoded behind the rest. */
  lemma BackDecodes(u: Uas, s: Uas)
    requires Typed(u) && Gather(u).Some? && Sized(GatherAuth(u, AUTH_PAGES).value)
    requires Shaped(After(s, GatherAuth(u, AUTH_PAGES).value))
    ensures Sized(Gather(u).value)
    ensures After(s, Gather(u).value)
            == WithOperatorId(u, WithSystem(u, WithSelfId(u, After(s, GatherAuth(u, AUTH_PAGES).value))))
  {
    var a0, a1, a2 := GatherAuth(u, AUTH_PAGES).value, GatherSelfId(u).value, GatherSystem(u).value;
    SelfIdPut(u, s, a0);
    SystemPut(u, s, a1);
    OperatorIdPut(u, s, a2);
  }

  /**
   * Whatever a receiver decodes of the messages gathered is, part by part, what was sent: every part that
   * was valid and could be encoded arrives as the decode of its encoding, and nothing else does.
   */
  lemma GatheredIsReceived(u: Uas, s: Uas)
    requires Typed(u) && Distinguishable(u) && Gather(u).Some? && Blank(s)
    ensures Sized(Gather(u).value) && Shaped(After(s, Gather(u).value)) && Received(u, After(s, Gather(u).value))
  {
    AuthStage(u, s, AUTH_PAGES);
    BackDecodes(u, s);
    AllStored(u, s, After(s, GatherAuth(u, AUTH_PAGES).value));
  }
}
