/**
 * The packed payload structs of the server messages: one datatype per struct,
 * its layout (field types in declaration order) and its codec, which ties the
 * datatype to the field values the layout describes.  Nested structs keep
 * their own datatypes; an array is a sequence of its element datatype; the
 * untagged union in `SMCORecord` is kept as its raw bytes.
 */
module ServerMsgStructs {
  import opened Packed

  const Uint8: FieldKind := UInt(1)
  const Uint16: FieldKind := UInt(2)
  const Uint32: FieldKind := UInt(4)
  const Uint64: FieldKind := UInt(8)

  type Chars64 = s: seq<Byte> | |s| == 64 witness seq(64, _ => 0)
  type Chars128 = s: seq<Byte> | |s| == 128 witness seq(128, _ => 0)
  type Chars1024 = s: seq<Byte> | |s| == 1024 witness seq(1024, _ => 0)

  datatype SMPing = SMPing(tick: U32) {

    /** The field values, in declaration order. */
    function Fields(): (vs: seq<FieldValue>)
      ensures FitsAll(PingLayout, vs)
    {
      Pow256Widths();
      [Num(tick)]
    }

    static function FromFields(v: seq<FieldValue>): (r: SMPing)
      requires FitsAll(PingLayout, v)
      ensures r.Fields() == v
    {
      Pow256Widths();
      SMPing(v[0].n)
    }
  }

  const PingLayout: Layout := [Uint32]

  const PingCodec: Codec<SMPing> :=
    Codec(PingLayout, (r: SMPing) => r.Fields(),
          (v: seq<FieldValue>) requires FitsAll(PingLayout, v) => SMPing.FromFields(v))

  lemma PingCodecIsCodec()
    ensures IsCodec(PingCodec)
  {
  }

  /** operation: 0 validates the account, 1 creates it, 2 logs in. */
  datatype SMAccount = SMAccount(operation: U8, respond: U8, id: Chars64, password: Chars128) {

    /** The field values, in declaration order. */
    function Fields(): (vs: seq<FieldValue>)
      ensures FitsAll(AccountLayout, vs)
    {
      Pow256Widths();
      [Num(operation), Num(respond), Bytes(id), Bytes(password)]
    }

    static function FromFields(v: seq<FieldValue>): (r: SMAccount)
      requires FitsAll(AccountLayout, v)
      ensures r.Fields() == v
    {
      Pow256Widths();
      SMAccount(v[0].n, v[1].n, v[2].b, v[3].b)
    }
  }

  const AccountLayout: Layout := [Uint8, Uint8, Raw(64), Raw(128)]

  const AccountCodec: Codec<SMAccount> :=
    Codec(AccountLayout, (r: SMAccount) => r.Fields(),
          (v: seq<FieldValue>) requires FitsAll(AccountLayout, v) => SMAccount.FromFields(v))

  lemma AccountCodecIsCodec()
    ensures IsCodec(AccountCodec)
  {
  }

  datatype SMLoginOK = SMLoginOK(uid: U64, dbid: U32, mapId: U32, x: U16, y: U16, male: U8,
    direction: U8, jobId: U32, level: U32) {

    /** The field values, in declaration order. */
    function Fields(): (vs: seq<FieldValue>)
      ensures FitsAll(LoginOKLayout, vs)
    {
      Pow256Widths();
      [Num(uid), Num(dbid), Num(mapId), Num(x), Num(y), Num(male), Num(direction), Num(jobId),
       Num(level)]
    }

    static function FromFields(v: seq<FieldValue>): (r: SMLoginOK)
      requires FitsAll(LoginOKLayout, v)
      ensures r.Fields() == v
    {
      Pow256Widths();
      SMLoginOK(v[0].n, v[1].n, v[2].n, v[3].n, v[4].n, v[5].n, v[6].n, v[7].n, v[8].n)
    }
  }

  const LoginOKLayout: Layout := [Uint64, Uint32, Uint32, Uint16, Uint16, Uint8, Uint8, Uint32,
    Uint32]

  const LoginOKCodec: Codec<SMLoginOK> :=
    Codec(LoginOKLayout, (r: SMLoginOK) => r.Fields(),
          (v: seq<FieldValue>) requires FitsAll(LoginOKLayout, v) => SMLoginOK.FromFields(v))

  lemma LoginOKCodecIsCodec()
    ensures IsCodec(LoginOKCodec)
  {
  }

  datatype SMLoginFail = SMLoginFail(failId: U32) {

    /** The field values, in declaration order. */
    function Fields(): (vs: seq<FieldValue>)
      ensures FitsAll(LoginFailLayout, vs)
    {
      Pow256Widths();
      [Num(failId)]
    }

    static function FromFields(v: seq<FieldValue>): (r: SMLoginFail)
      requires FitsAll(LoginFailLayout, v)
      ensures r.Fields() == v
    {
      Pow256Widths();
      SMLoginFail(v[0].n)
    }
  }

  const LoginFailLayout: Layout := [Uint32]

  const LoginFailCodec: Codec<SMLoginFail> :=
    Codec(LoginFailLayout, (r: SMLoginFail) => r.Fields(),
          (v: seq<FieldValue>) requires FitsAll(LoginFailLayout, v) => SMLoginFail.FromFields(v))

  lemma LoginFailCodecIsCodec()
    ensures IsCodec(LoginFailCodec)
  {
  }

  /** Also the type of the nested `_Action` struct of `SMCORecord`, which has the same fields in the same order. */
  datatype SMAction = SMAction(uid: U64, mapId: U32, action: U8, speed: U8, direction: U8,
    x: U16, y: U16, aimX: U16, aimY: U16, aimUid: U64, actionParam: U64) {

    /** The field values, in declaration order. */
    function Fields(): (vs: seq<FieldValue>)
      ensures FitsAll(ActionLayout, vs)
    {
      Pow256Widths();
      [Num(uid), Num(mapId), Num(action), Num(speed), Num(direction), Num(x), Num(y),
       Num(aimX), Num(aimY), Num(aimUid), Num(actionParam)]
    }

    static function FromFields(v: seq<FieldValue>): (r: SMAction)
      requires FitsAll(ActionLayout, v)
      ensures r.Fields() == v
    {
      Pow256Widths();
      SMAction(v[0].n, v[1].n, v[2].n, v[3].n, v[4].n, v[5].n, v[6].n, v[7].n, v[8].n, v[9].n,
        v[10].n)
    }
  }

  const ActionLayout: Layout := [Uint64, Uint32, Uint8, Uint8, Uint8, Uint16, Uint16, Uint16,
    Uint16, Uint64, Uint64]

  const ActionCodec: Codec<SMAction> :=
    Codec(ActionLayout, (r: SMAction) => r.Fields(),
          (v: seq<FieldValue>) requires FitsAll(ActionLayout, v) => SMAction.FromFields(v))

  lemma ActionCodecIsCodec()
    ensures IsCodec(ActionCodec)
  {
  }

  // The untagged union at the end of `SMCORecord` and its three members.

  datatype SMCORecordMonster = SMCORecordMonster(monsterId: U32) {

    /** The field values, in declaration order. */
    function Fields(): (vs: seq<FieldValue>)
      ensures FitsAll(MonsterLayout, vs)
    {
      Pow256Widths();
      [Num(monsterId)]
    }

    static function FromFields(v: seq<FieldValue>): (r: SMCORecordMonster)
      requires FitsAll(MonsterLayout, v)
      ensures r.Fields() == v
    {
      Pow256Widths();
      SMCORecordMonster(v[0].n)
    }
  }

  const MonsterLayout: Layout := [Uint32]

  const MonsterCodec: Codec<SMCORecordMonster> :=
    Codec(MonsterLayout, (r: SMCORecordMonster) => r.Fields(),
          (v: seq<FieldValue>) requires FitsAll(MonsterLayout, v) => SMCORecordMonster.FromFields(v))

  lemma MonsterCodecIsCodec()
    ensures IsCodec(MonsterCodec)
  {
  }

  datatype SMCORecordPlayer = SMCORecordPlayer(dbid: U32, jobId: U32, level: U32) {

    /** The field values, in declaration order. */
    function Fields(): (vs: seq<FieldValue>)
      ensures FitsAll(PlayerLayout, vs)
    {
      Pow256Widths();
      [Num(dbid), Num(jobId), Num(level)]
    }

    static function FromFields(v: seq<FieldValue>): (r: SMCORecordPlayer)
      requires FitsAll(PlayerLayout, v)
      ensures r.Fields() == v
    {
      Pow256Widths();
      SMCORecordPlayer(v[0].n, v[1].n, v[2].n)
    }
  }

  const PlayerLayout: Layout := [Uint32, Uint32, Uint32]

  const PlayerCodec: Codec<SMCORecordPlayer> :=
    Codec(PlayerLayout, (r: SMCORecordPlayer) => r.Fields(),
          (v: seq<FieldValue>) requires FitsAll(PlayerLayout, v) => SMCORecordPlayer.FromFields(v))

  lemma PlayerCodecIsCodec()
    ensures IsCodec(PlayerCodec)
  {
  }

  datatype SMCORecordNPC = SMCORecordNPC(npcId: U32) {

    /** The field values, in declaration order. */
    function Fields(): (vs: seq<FieldValue>)
      ensures FitsAll(NPCLayout, vs)
    {
      Pow256Widths();
      [Num(npcId)]
    }

    static function FromFields(v: seq<FieldValue>): (r: SMCORecordNPC)
      requires FitsAll(NPCLayout, v)
      ensures r.Fields() == v
    {
      Pow256Widths();
      SMCORecordNPC(v[0].n)
    }
  }

  const NPCLayout: Layout := [Uint32]

  const NPCCodec: Codec<SMCORecordNPC> :=
    Codec(NPCLayout, (r: SMCORecordNPC) => r.Fields(),
          (v: seq<FieldValue>) requires FitsAll(NPCLayout, v) => SMCORecordNPC.FromFields(v))

  lemma NPCCodecIsCodec()
    ensures IsCodec(NPCCodec)
  {
  }

  function Wider(a: nat, b: nat): nat { if a < b then b else a }

  /** A union is as wide as its widest member. */
  const UnionSize: nat := Wider(Wider(Size(MonsterLayout), Size(PlayerLayout)), Size(NPCLayout))

  lemma UnionSizeIsWidestMember()
    ensures Size(MonsterLayout) == Size(NPCLayout) == 4
    ensures UnionSize == Size(PlayerLayout) == 12
  {
    SizeSuffixes(PlayerLayout);
  }

  /** The union's bytes; which member they hold is not recorded in the struct. */
  type UnionBytes = s: seq<Byte> | |s| == 12 witness seq(12, _ => 0)

  datatype SMCORecord = SMCORecord(action: SMAction, member: UnionBytes) {

    /** The field values, in declaration order. */
    function Fields(): (vs: seq<FieldValue>)
      ensures FitsAll(CORecordLayout, vs)
    {
      UnionSizeIsWidestMember();
      FitsAllAppend(ActionLayout, [Raw(UnionSize)], action.Fields(), [Bytes(member)]);
      action.Fields() + [Bytes(member)]
    }

    static function FromFields(v: seq<FieldValue>): (r: SMCORecord)
      requires FitsAll(CORecordLayout, v)
      ensures r.Fields() == v
    {
      var k := |ActionLayout|;
      UnionSizeIsWidestMember();
      FitsAllAppend(ActionLayout, [Raw(UnionSize)], v[..k], v[k..]);
      assert v == v[..k] + [v[k]];
      SMCORecord(SMAction.FromFields(v[..k]), v[k].b)
    }
  }

  const CORecordLayout: Layout := ActionLayout + [Raw(UnionSize)]

  const CORecordCodec: Codec<SMCORecord> :=
    Codec(CORecordLayout, (r: SMCORecord) => r.Fields(),
          (v: seq<FieldValue>) requires FitsAll(CORecordLayout, v) => SMCORecord.FromFields(v))

  lemma CORecordCodecIsCodec()
    ensures IsCodec(CORecordCodec)
  {
    forall r: SMCORecord ensures SMCORecord.FromFields(r.Fields()) == r {
      assert r.Fields()[..|ActionLayout|] == r.action.Fields();
    }
  }

  /** The union read as its monster member; every member starts at the union's first byte. */
  function AsMonster(r: SMCORecord): (m: SMCORecordMonster)
    ensures EncodeWith(MonsterCodec, m) == r.member[..4]
  {
    MonsterCodecIsCodec();
    UnionSizeIsWidestMember();
    assert PackedSize(MonsterCodec) == Size(MonsterLayout);
    DecodeWith(MonsterCodec, r.member)
  }

  function AsPlayer(r: SMCORecord): (p: SMCORecordPlayer)
    ensures EncodeWith(PlayerCodec, p) == r.member
  {
    PlayerCodecIsCodec();
    UnionSizeIsWidestMember();
    assert PackedSize(PlayerCodec) == Size(PlayerLayout);
    DecodeWith(PlayerCodec, r.member)
  }

  function AsNPC(r: SMCORecord): (n: SMCORecordNPC)
    ensures EncodeWith(NPCCodec, n) == r.member[..4]
  {
    NPCCodecIsCodec();
    UnionSizeIsWidestMember();
    assert PackedSize(NPCCodec) == Size(NPCLayout);
    DecodeWith(NPCCodec, r.member)
  }

  /** The members share storage: the first 32-bit field of each is the same four bytes. */
  lemma UnionMembersOverlap(r: SMCORecord)
    ensures AsMonster(r).monsterId == AsPlayer(r).dbid == AsNPC(r).npcId
  {
    var m, p, n := AsMonster(r), AsPlayer(r), AsNPC(r);
    UnionSizeIsWidestMember();
    assert EncodeUInt(m.monsterId, 4) == r.member[..4];
    assert EncodeUInt(n.npcId, 4) == r.member[..4];
    assert EncodeWith(PlayerCodec, p)[..4] == EncodeUInt(p.dbid, 4);
    DecodeEncodeUInt(m.monsterId, 4);
    DecodeEncodeUInt(p.dbid, 4);
    DecodeEncodeUInt(n.npcId, 4);
  }

  datatype SMUpdateHP = SMUpdateHP(uid: U64, mapId: U32, hp: U32, hpMax: U32) {

    /** The field values, in declaration order. */
    function Fields(): (vs: seq<FieldValue>)
      ensures FitsAll(UpdateHPLayout, vs)
    {
      Pow256Widths();
      [Num(uid), Num(mapId), Num(hp), Num(hpMax)]
    }

    static function FromFields(v: seq<FieldValue>): (r: SMUpdateHP)
      requires FitsAll(UpdateHPLayout, v)
      ensures r.Fields() == v
    {
      Pow256Widths();
      SMUpdateHP(v[0].n, v[1].n, v[2].n, v[3].n)
    }
  }

  const UpdateHPLayout: Layout := [Uint64, Uint32, Uint32, Uint32]

  const UpdateHPCodec: Codec<SMUpdateHP> :=
    Codec(UpdateHPLayout, (r: SMUpdateHP) => r.Fields(),
          (v: seq<FieldValue>) requires FitsAll(UpdateHPLayout, v) => SMUpdateHP.FromFields(v))

  lemma UpdateHPCodecIsCodec()
    ensures IsCodec(UpdateHPCodec)
  {
  }

  datatype SMDeadFadeOut = SMDeadFadeOut(uid: U64, mapId: U32, x: U32, y: U32) {

    /** The field values, in declaration order. */
    function Fields(): (vs: seq<FieldValue>)
      ensures FitsAll(DeadFadeOutLayout, vs)
    {
      Pow256Widths();
      [Num(uid), Num(mapId), Num(x), Num(y)]
    }

    static function FromFields(v: seq<FieldValue>): (r: SMDeadFadeOut)
      requires FitsAll(DeadFadeOutLayout, v)
      ensures r.Fields() == v
    {
      Pow256Widths();
      SMDeadFadeOut(v[0].n, v[1].n, v[2].n, v[3].n)
    }
  }

  const DeadFadeOutLayout: Layout := [Uint64, Uint32, Uint32, Uint32]

  const DeadFadeOutCodec: Codec<SMDeadFadeOut> :=
    Codec(DeadFadeOutLayout, (r: SMDeadFadeOut) => r.Fields(),
          (v: seq<FieldValue>) requires FitsAll(DeadFadeOutLayout, v) => SMDeadFadeOut.FromFields(v))

  lemma DeadFadeOutCodecIsCodec()
    ensures IsCodec(DeadFadeOutCodec)
  {
  }

  datatype SMNotifyDead = SMNotifyDead(uid: U64) {

    /** The field values, in declaration order. */
    function Fields(): (vs: seq<FieldValue>)
      ensures FitsAll(NotifyDeadLayout, vs)
    {
      Pow256Widths();
      [Num(uid)]
    }

    static function FromFields(v: seq<FieldValue>): (r: SMNotifyDead)
      requires FitsAll(NotifyDeadLayout, v)
      ensures r.Fields() == v
    {
      Pow256Widths();
      SMNotifyDead(v[0].n)
    }
  }

  const NotifyDeadLayout: Layout := [Uint64]

  const NotifyDeadCodec: Codec<SMNotifyDead> :=
    Codec(NotifyDeadLayout, (r: SMNotifyDead) => r.Fields(),
          (v: seq<FieldValue>) requires FitsAll(NotifyDeadLayout, v) => SMNotifyDead.FromFields(v))

  lemma NotifyDeadCodecIsCodec()
    ensures IsCodec(NotifyDeadCodec)
  {
  }

  datatype SMExp = SMExp(exp: U32) {

    /** The field values, in declaration order. */
    function Fields(): (vs: seq<FieldValue>)
      ensures FitsAll(ExpLayout, vs)
    {
      Pow256Widths();
      [Num(exp)]
    }

    static function FromFields(v: seq<FieldValue>): (r: SMExp)
      requires FitsAll(ExpLayout, v)
      ensures r.Fields() == v
    {
      Pow256Widths();
      SMExp(v[0].n)
    }
  }

  const ExpLayout: Layout := [Uint32]

  const ExpCodec: Codec<SMExp> :=
    Codec(ExpLayout, (r: SMExp) => r.Fields(),
          (v: seq<FieldValue>) requires FitsAll(ExpLayout, v) => SMExp.FromFields(v))

  lemma ExpCodecIsCodec()
    ensures IsCodec(ExpCodec)
  {
  }

  datatype SMMiss = SMMiss(uid: U64) {

    /** The field values, in declaration order. */
    function Fields(): (vs: seq<FieldValue>)
      ensures FitsAll(MissLayout, vs)
    {
      Pow256Widths();
      [Num(uid)]
    }

    static function FromFields(v: seq<FieldValue>): (r: SMMiss)
      requires FitsAll(MissLayout, v)
      ensures r.Fields() == v
    {
      Pow256Widths();
      SMMiss(v[0].n)
    }
  }

  const MissLayout: Layout := [Uint64]

  const MissCodec: Codec<SMMiss> :=
    Codec(MissLayout, (r: SMMiss) => r.Fields(),
          (v: seq<FieldValue>) requires FitsAll(MissLayout, v) => SMMiss.FromFields(v))

  lemma MissCodecIsCodec()
    ensures IsCodec(MissCodec)
  {
  }

  /** The element type of `SMShowDropItem.IDList`. */
  datatype CommonItem = CommonItem(id: U32, dbid: U32)

  const CommonItemLayout: Layout := [Uint32, Uint32]

  const DropItemCount: nat := 16

  type ItemList = s: seq<CommonItem> | |s| == 16 witness seq(16, _ => CommonItem(0, 0))

  /** The fields of an array of `CommonItem`, element after element. */
  function ItemsFields(items: seq<CommonItem>): (vs: seq<FieldValue>)
    ensures FitsAll(Repeat(CommonItemLayout, |items|), vs)
  {
    if items == [] then []
    else
      Pow256Widths();
      var head := [Num(items[0].id), Num(items[0].dbid)];
      var tail := ItemsFields(items[1..]);
      FitsAllAppend(CommonItemLayout, Repeat(CommonItemLayout, |items| - 1), head, tail);
      head + tail
  }

  function ItemsFromFields(vs: seq<FieldValue>, count: nat): (items: seq<CommonItem>)
    requires FitsAll(Repeat(CommonItemLayout, count), vs)
    ensures |items| == count && ItemsFields(items) == vs
  {
    if count == 0 then []
    else
      Pow256Widths();
      var rest := Repeat(CommonItemLayout, count - 1);
      assert |CommonItemLayout| == 2 && |vs| == 2 + |rest|;
      FitsAllAppend(CommonItemLayout, rest, vs[..2], vs[2..]);
      assert vs == vs[..2] + vs[2..];
      var tail := ItemsFromFields(vs[2..], count - 1);
      var items := [CommonItem(vs[0].n, vs[1].n)] + tail;
      assert items[1..] == tail;
      assert vs[..2] == [Num(vs[0].n), Num(vs[1].n)];
      items
  }

  lemma {:induction false} ItemsFromItemsFields(items: seq<CommonItem>)
    ensures ItemsFromFields(ItemsFields(items), |items|) == items
  {
    if items != [] {
      var vs := ItemsFields(items);
      assert vs[2..] == ItemsFields(items[1..]);
      ItemsFromItemsFields(items[1..]);
    }
  }

  datatype SMShowDropItem = SMShowDropItem(idList: ItemList, x: U16, y: U16) {

    /** The field values, in declaration order. */
    function Fields(): (vs: seq<FieldValue>)
      ensures FitsAll(ShowDropItemLayout, vs)
    {
      Pow256Widths();
      FitsAllAppend(Repeat(CommonItemLayout, DropItemCount), [Uint16, Uint16],
                    ItemsFields(idList), [Num(x), Num(y)]);
      ItemsFields(idList) + [Num(x), Num(y)]
    }

    static function FromFields(v: seq<FieldValue>): (r: SMShowDropItem)
      requires FitsAll(ShowDropItemLayout, v)
      ensures r.Fields() == v
    {
      Pow256Widths();
      var k := |Repeat(CommonItemLayout, DropItemCount)|;
      FitsAllAppend(Repeat(CommonItemLayout, DropItemCount), [Uint16, Uint16], v[..k], v[k..]);
      assert v == v[..k] + [v[k], v[k + 1]];
      SMShowDropItem(ItemsFromFields(v[..k], DropItemCount), v[k].n, v[k + 1].n)
    }
  }

  /** `IDList[16]` followed by X and Y. */
  const ShowDropItemLayout: Layout := Repeat(CommonItemLayout, DropItemCount) + [Uint16, Uint16]

  const ShowDropItemCodec: Codec<SMShowDropItem> :=
    Codec(ShowDropItemLayout, (r: SMShowDropItem) => r.Fields(),
          (v: seq<FieldValue>) requires FitsAll(ShowDropItemLayout, v) => SMShowDropItem.FromFields(v))

  lemma ShowDropItemCodecIsCodec()
    ensures IsCodec(ShowDropItemCodec)
  {
    forall r: SMShowDropItem ensures SMShowDropItem.FromFields(r.Fields()) == r {
      var k := |Repeat(CommonItemLayout, DropItemCount)|;
      assert r.Fields()[..k] == ItemsFields(r.idList);
      ItemsFromItemsFields(r.idList);
    }
  }

  datatype SMFireMagic = SMFireMagic(uid: U64, mapId: U32, magic: U8, magicParam: U8,
    speed: U8, direction: U8, x: U16, y: U16, aimX: U16, aimY: U16, aimUid: U64) {

    /** The field values, in declaration order. */
    function Fields(): (vs: seq<FieldValue>)
      ensures FitsAll(FireMagicLayout, vs)
    {
      Pow256Widths();
      [Num(uid), Num(mapId), Num(magic), Num(magicParam), Num(speed), Num(direction), Num(x),
       Num(y), Num(aimX), Num(aimY), Num(aimUid)]
    }

    static function FromFields(v: seq<FieldValue>): (r: SMFireMagic)
      requires FitsAll(FireMagicLayout, v)
      ensures r.Fields() == v
    {
      Pow256Widths();
      SMFireMagic(v[0].n, v[1].n, v[2].n, v[3].n, v[4].n, v[5].n, v[6].n, v[7].n, v[8].n,
        v[9].n, v[10].n)
    }
  }

  const FireMagicLayout: Layout := [Uint64, Uint32, Uint8, Uint8, Uint8, Uint8, Uint16, Uint16,
    Uint16, Uint16, Uint64]

  const FireMagicCodec: Codec<SMFireMagic> :=
    Codec(FireMagicLayout, (r: SMFireMagic) => r.Fields(),
          (v: seq<FieldValue>) requires FitsAll(FireMagicLayout, v) => SMFireMagic.FromFields(v))

  lemma FireMagicCodecIsCodec()
    ensures IsCodec(FireMagicCodec)
  {
  }

  datatype SMOffline = SMOffline(uid: U64, mapId: U32) {

    /** The field values, in declaration order. */
    function Fields(): (vs: seq<FieldValue>)
      ensures FitsAll(OfflineLayout, vs)
    {
      Pow256Widths();
      [Num(uid), Num(mapId)]
    }

    static function FromFields(v: seq<FieldValue>): (r: SMOffline)
      requires FitsAll(OfflineLayout, v)
      ensures r.Fields() == v
    {
      Pow256Widths();
      SMOffline(v[0].n, v[1].n)
    }
  }

  const OfflineLayout: Layout := [Uint64, Uint32]

  const OfflineCodec: Codec<SMOffline> :=
    Codec(OfflineLayout, (r: SMOffline) => r.Fields(),
          (v: seq<FieldValue>) requires FitsAll(OfflineLayout, v) => SMOffline.FromFields(v))

  lemma OfflineCodecIsCodec()
    ensures IsCodec(OfflineCodec)
  {
  }

  datatype SMRemoveGroundItem = SMRemoveGroundItem(x: U16, y: U16, id: U32, dbid: U32) {

    /** The field values, in declaration order. */
    function Fields(): (vs: seq<FieldValue>)
      ensures FitsAll(RemoveGroundItemLayout, vs)
    {
      Pow256Widths();
      [Num(x), Num(y), Num(id), Num(dbid)]
    }

    static function FromFields(v: seq<FieldValue>): (r: SMRemoveGroundItem)
      requires FitsAll(RemoveGroundItemLayout, v)
      ensures r.Fields() == v
    {
      Pow256Widths();
      SMRemoveGroundItem(v[0].n, v[1].n, v[2].n, v[3].n)
    }
  }

  const RemoveGroundItemLayout: Layout := [Uint16, Uint16, Uint32, Uint32]

  const RemoveGroundItemCodec: Codec<SMRemoveGroundItem> :=
    Codec(RemoveGroundItemLayout, (r: SMRemoveGroundItem) => r.Fields(),
          (v: seq<FieldValue>) requires FitsAll(RemoveGroundItemLayout, v) => SMRemoveGroundItem.FromFields(v))

  lemma RemoveGroundItemCodecIsCodec()
    ensures IsCodec(RemoveGroundItemCodec)
  {
  }

  datatype SMPickUpOK = SMPickUpOK(x: U16, y: U16, id: U32, dbid: U32) {

    /** The field values, in declaration order. */
    function Fields(): (vs: seq<FieldValue>)
      ensures FitsAll(PickUpOKLayout, vs)
    {
      Pow256Widths();
      [Num(x), Num(y), Num(id), Num(dbid)]
    }

    static function FromFields(v: seq<FieldValue>): (r: SMPickUpOK)
      requires FitsAll(PickUpOKLayout, v)
      ensures r.Fields() == v
    {
      Pow256Widths();
      SMPickUpOK(v[0].n, v[1].n, v[2].n, v[3].n)
    }
  }

  const PickUpOKLayout: Layout := [Uint16, Uint16, Uint32, Uint32]

  const PickUpOKCodec: Codec<SMPickUpOK> :=
    Codec(PickUpOKLayout, (r: SMPickUpOK) => r.Fields(),
          (v: seq<FieldValue>) requires FitsAll(PickUpOKLayout, v) => SMPickUpOK.FromFields(v))

  lemma PickUpOKCodecIsCodec()
    ensures IsCodec(PickUpOKCodec)
  {
  }

  datatype SMGold = SMGold(gold: U32) {

    /** The field values, in declaration order. */
    function Fields(): (vs: seq<FieldValue>)
      ensures FitsAll(GoldLayout, vs)
    {
      Pow256Widths();
      [Num(gold)]
    }

    static function FromFields(v: seq<FieldValue>): (r: SMGold)
      requires FitsAll(GoldLayout, v)
      ensures r.Fields() == v
    {
      Pow256Widths();
      SMGold(v[0].n)
    }
  }

  const GoldLayout: Layout := [Uint32]

  const GoldCodec: Codec<SMGold> :=
    Codec(GoldLayout, (r: SMGold) => r.Fields(),
          (v: seq<FieldValue>) requires FitsAll(GoldLayout, v) => SMGold.FromFields(v))

  lemma GoldCodecIsCodec()
    ensures IsCodec(GoldCodec)
  {
  }

  datatype SMNPCXMLLayout = SMNPCXMLLayout(npcUid: U64, xmlLayout: Chars1024) {

    /** The field values, in declaration order. */
    function Fields(): (vs: seq<FieldValue>)
      ensures FitsAll(NPCXMLLayoutLayout, vs)
    {
      Pow256Widths();
      [Num(npcUid), Bytes(xmlLayout)]
    }

    static function FromFields(v: seq<FieldValue>): (r: SMNPCXMLLayout)
      requires FitsAll(NPCXMLLayoutLayout, v)
      ensures r.Fields() == v
    {
      Pow256Widths();
      SMNPCXMLLayout(v[0].n, v[1].b)
    }
  }

  const NPCXMLLayoutLayout: Layout := [Uint64, Raw(1024)]

  const NPCXMLLayoutCodec: Codec<SMNPCXMLLayout> :=
    Codec(NPCXMLLayoutLayout, (r: SMNPCXMLLayout) => r.Fields(),
          (v: seq<FieldValue>) requires FitsAll(NPCXMLLayoutLayout, v) => SMNPCXMLLayout.FromFields(v))

  lemma NPCXMLLayoutCodecIsCodec()
    ensures IsCodec(NPCXMLLayoutCodec)
  {
  }

  // The sizes of the packed structs, field width by field width.

  lemma ActionSize()
    ensures Size(ActionLayout) == 8 + 4 + 1 + 1 + 1 + 2 + 2 + 2 + 2 + 8 + 8 == 39
  {
    SizeSuffixes(ActionLayout);
  }

  /** `_Action` followed by the union. */
  lemma CORecordSize()
    ensures Size(CORecordLayout) == Size(ActionLayout) + UnionSize == 39 + 12
  {
    ActionSize();
    UnionSizeIsWidestMember();
    SizeAppend(ActionLayout, [Raw(UnionSize)]);
  }

  lemma FireMagicSize()
    ensures Size(FireMagicLayout) == 8 + 4 + 1 + 1 + 1 + 1 + 2 + 2 + 2 + 2 + 8 == 32
  {
    SizeSuffixes(FireMagicLayout);
  }

  /** An array of 16 two-field items followed by two 16-bit fields. */
  lemma ShowDropItemSize()
    ensures Size(ShowDropItemLayout) == DropItemCount * Size(CommonItemLayout) + 2 + 2 == 16 * 8 + 4
  {
    SizeSuffixes(CommonItemLayout);
    SizeRepeat(CommonItemLayout, DropItemCount);
    SizeAppend(Repeat(CommonItemLayout, DropItemCount), [Uint16, Uint16]);
    SizeSuffixes([Uint16, Uint16]);
  }

  lemma LoginOKSize()
    ensures Size(LoginOKLayout) == 8 + 4 + 4 + 2 + 2 + 1 + 1 + 4 + 4 == 30
  {
    SizeSuffixes(LoginOKLayout);
  }

  /** Structs of a single integer field. */
  lemma OneFieldSizes()
    ensures Size(PingLayout) == 4
    ensures Size(LoginFailLayout) == 4
    ensures Size(NotifyDeadLayout) == 8
    ensures Size(ExpLayout) == 4
    ensures Size(MissLayout) == 8
    ensures Size(GoldLayout) == 4
  {
    assert Size(PingLayout) == 4 by { SizeSuffixes(PingLayout); }
    assert Size(LoginFailLayout) == 4 by { SizeSuffixes(LoginFailLayout); }
    assert Size(NotifyDeadLayout) == 8 by { SizeSuffixes(NotifyDeadLayout); }
    assert Size(ExpLayout) == 4 by { SizeSuffixes(ExpLayout); }
    assert Size(MissLayout) == 8 by { SizeSuffixes(MissLayout); }
    assert Size(GoldLayout) == 4 by { SizeSuffixes(GoldLayout); }
  }

  /** Structs of an id followed by an integer or a character array. */
  lemma TwoFieldSizes()
    ensures Size(OfflineLayout) == 8 + 4 == 12
    ensures Size(NPCXMLLayoutLayout) == 8 + 1024 == 1032
  {
    assert Size(OfflineLayout) == 12 by { SizeSuffixes(OfflineLayout); }
    assert Size(NPCXMLLayoutLayout) == 1032 by {
      assert NPCXMLLayoutLayout[1..] == [Raw(1024)];
      assert [Raw(1024)][1..] == [];
      assert Size([Raw(1024)]) == 1024 + Size([]);
    }
  }

  /** Structs of four fields. */
  lemma FourFieldSizes()
    ensures Size(AccountLayout) == 1 + 1 + 64 + 128 == 194
    ensures Size(UpdateHPLayout) == 8 + 4 + 4 + 4 == 20
    ensures Size(DeadFadeOutLayout) == 8 + 4 + 4 + 4 == 20
    ensures Size(RemoveGroundItemLayout) == 2 + 2 + 4 + 4 == 12
    ensures Size(PickUpOKLayout) == 2 + 2 + 4 + 4 == 12
  {
    assert Size(AccountLayout) == 194 by { SizeSuffixes(AccountLayout); }
    assert Size(UpdateHPLayout) == 20 by { SizeSuffixes(UpdateHPLayout); }
    assert Size(DeadFadeOutLayout) == 20 by { SizeSuffixes(DeadFadeOutLayout); }
    assert Size(RemoveGroundItemLayout) == 12 by { SizeSuffixes(RemoveGroundItemLayout); }
    assert Size(PickUpOKLayout) == 12 by { SizeSuffixes(PickUpOKLayout); }
  }
}
