/**
 * The server message head codes, the attribute table that describes the
 * payload of each code, and the length-checked payload decoder `conv`.
 */
module ServerMsg {
  import opened Wrappers
  import opened Packed
  import opened ServerMsgStructs

  /** The head codes of the server messages, numbered from 0 in declaration order. */
  datatype SMType =
    | None0 | Ping | LoginOK | LoginFail | Action | CORecord | UpdateHP | NotifyDead
    | DeadFadeOut | Exp | Miss | ShowDropItem | FireMagic | SpaceMove | Offline
    | RemoveGroundItem | PickUpOK | Gold | NPCXMLLayout | Max

  /** The one-byte value of a head code. */
  function Code(t: SMType): (c: U8)
    ensures c < 20
  {
    match t
    case None0 => 0
    case Ping => 1
    case LoginOK => 2
    case LoginFail => 3
    case Action => 4
    case CORecord => 5
    case UpdateHP => 6
    case NotifyDead => 7
    case DeadFadeOut => 8
    case Exp => 9
    case Miss => 10
    case ShowDropItem => 11
    case FireMagic => 12
    case SpaceMove => 13
    case Offline => 14
    case RemoveGroundItem => 15
    case PickUpOK => 16
    case Gold => 17
    case NPCXMLLayout => 18
    case Max => 19
  }

  /** The head code a byte stands for, if any. */
  function FromCode(c: U8): (t: Option<SMType>)
    ensures t.Some? <==> c < 20
    ensures t.Some? ==> Code(t.value) == c
  {
    if c == 0 then Some(None0)
    else if c == 1 then Some(Ping)
    else if c == 2 then Some(LoginOK)
    else if c == 3 then Some(LoginFail)
    else if c == 4 then Some(Action)
    else if c == 5 then Some(CORecord)
    else if c == 6 then Some(UpdateHP)
    else if c == 7 then Some(NotifyDead)
    else if c == 8 then Some(DeadFadeOut)
    else if c == 9 then Some(Exp)
    else if c == 10 then Some(Miss)
    else if c == 11 then Some(ShowDropItem)
    else if c == 12 then Some(FireMagic)
    else if c == 13 then Some(SpaceMove)
    else if c == 14 then Some(Offline)
    else if c == 15 then Some(RemoveGroundItem)
    else if c == 16 then Some(PickUpOK)
    else if c == 17 then Some(Gold)
    else if c == 18 then Some(NPCXMLLayout)
    else if c == 19 then Some(Max)
    else None
  }

  /** Decoding the code of a head code gives it back, so distinct head codes have distinct values. */
  lemma FromCodeCode(t: SMType)
    ensures FromCode(Code(t)) == Some(t)
  {
  }

  lemma CodeInjective(t: SMType, u: SMType)
    ensures Code(t) == Code(u) <==> t == u
  {
    FromCodeCode(t);
    FromCodeCode(u);
  }

  /** The identifier under which a head code is declared. */
  function Identifier(t: SMType): (s: string)
    ensures |s| > 3 && s[..3] == "SM_"
  {
    match t
    case None0 => "SM_NONE_0"
    case Ping => "SM_PING"
    case LoginOK => "SM_LOGINOK"
    case LoginFail => "SM_LOGINFAIL"
    case Action => "SM_ACTION"
    case CORecord => "SM_CORECORD"
    case UpdateHP => "SM_UPDATEHP"
    case NotifyDead => "SM_NOTIFYDEAD"
    case DeadFadeOut => "SM_DEADFADEOUT"
    case Exp => "SM_EXP"
    case Miss => "SM_MISS"
    case ShowDropItem => "SM_SHOWDROPITEM"
    case FireMagic => "SM_FIREMAGIC"
    case SpaceMove => "SM_SPACEMOVE"
    case Offline => "SM_OFFLINE"
    case RemoveGroundItem => "SM_REMOVEGROUNDITEM"
    case PickUpOK => "SM_PICKUPOK"
    case Gold => "SM_GOLD"
    case NPCXMLLayout => "SM_NPCXMLLAYOUT"
    case Max => "SM_MAX"
  }

  /**
   * What the table records about a head code: the payload kind, the payload
   * size in bytes and a printable name.
   */
  datatype MsgAttribute = MsgAttribute(kind: nat, size: nat, name: string)

  // The payload kinds of the table's legend.
  const KindEmpty: nat := 0
  const KindFixedCompressed: nat := 1
  const KindFixed: nat := 2
  const KindVariable: nat := 3
  const KindVariableCompressed: nat := 4

  /** The entry used for every head code the table does not list. */
  const NoneAttribute: MsgAttribute := MsgAttribute(KindEmpty, 0, "SM_NONE")

  /** The attribute table's entry for each head code; `SM_SPACEMOVE` and `SM_MAX` have none. */
  function Entry(t: SMType): (e: Option<MsgAttribute>)
    ensures e.None? <==> t == SpaceMove || t == Max
    ensures e.Some? ==> e.value.name == if t == None0 then "SM_NONE" else Identifier(t)
  {
    match t
    case None0 => Some(NoneAttribute)
    case Ping => Some(MsgAttribute(KindFixed, Size(PingLayout), "SM_PING"))
    case LoginOK => Some(MsgAttribute(KindFixedCompressed, Size(LoginOKLayout), "SM_LOGINOK"))
    case LoginFail => Some(MsgAttribute(KindFixed, Size(LoginFailLayout), "SM_LOGINFAIL"))
    case Action => Some(MsgAttribute(KindFixedCompressed, Size(ActionLayout), "SM_ACTION"))
    case CORecord => Some(MsgAttribute(KindFixedCompressed, Size(CORecordLayout), "SM_CORECORD"))
    case UpdateHP => Some(MsgAttribute(KindFixedCompressed, Size(UpdateHPLayout), "SM_UPDATEHP"))
    case NotifyDead => Some(MsgAttribute(KindFixedCompressed, Size(NotifyDeadLayout), "SM_NOTIFYDEAD"))
    case DeadFadeOut => Some(MsgAttribute(KindFixedCompressed, Size(DeadFadeOutLayout), "SM_DEADFADEOUT"))
    case Exp => Some(MsgAttribute(KindFixedCompressed, Size(ExpLayout), "SM_EXP"))
    case Miss => Some(MsgAttribute(KindFixedCompressed, Size(MissLayout), "SM_MISS"))
    case ShowDropItem => Some(MsgAttribute(KindFixedCompressed, Size(ShowDropItemLayout), "SM_SHOWDROPITEM"))
    case FireMagic => Some(MsgAttribute(KindFixedCompressed, Size(FireMagicLayout), "SM_FIREMAGIC"))
    case SpaceMove => None
    case Offline => Some(MsgAttribute(KindFixedCompressed, Size(OfflineLayout), "SM_OFFLINE"))
    case RemoveGroundItem => Some(MsgAttribute(KindFixedCompressed, Size(RemoveGroundItemLayout), "SM_REMOVEGROUNDITEM"))
    case PickUpOK => Some(MsgAttribute(KindFixedCompressed, Size(PickUpOKLayout), "SM_PICKUPOK"))
    case Gold => Some(MsgAttribute(KindFixedCompressed, Size(GoldLayout), "SM_GOLD"))
    case NPCXMLLayout => Some(MsgAttribute(KindFixed, Size(NPCXMLLayoutLayout), "SM_NPCXMLLAYOUT"))
    case Max => None
  }

  /** The byte has an entry in the table. */
  predicate InTable(c: U8): (b: bool)
    ensures b <==> c < 20 && c != Code(SpaceMove) && c != Code(Max)
  {
    FromCode(c).Some? && Entry(FromCode(c).value).Some?
  }

  /** The attribute of a head code, falling back to the `SM_NONE_0` entry for a code the table does not list. */
  function GetAttribute(headCode: U8): (a: MsgAttribute)
    ensures !InTable(headCode) ==> a == NoneAttribute
    ensures InTable(headCode) ==> Some(a) == Entry(FromCode(headCode).value)
  {
    if InTable(headCode) then Entry(FromCode(headCode).value).value else Entry(None0).value
  }

  /** The lookup finds every declared head code except `SM_SPACEMOVE` and `SM_MAX`. */
  lemma ListedTypes(t: SMType)
    ensures InTable(Code(t)) <==> t != SpaceMove && t != Max
  {
    FromCodeCode(t);
  }

  /** The lookup falls back exactly for 13, 19 and every value from 20 to 255, and then yields `{0, 0, "SM_NONE"}`. */
  lemma FallbackCodes(c: U8)
    ensures !InTable(c) <==> c == Code(SpaceMove) || c == Code(Max) || c >= 20
    ensures !InTable(c) ==> GetAttribute(c) == MsgAttribute(0, 0, "SM_NONE")
  {
  }

  /** Only the codes 0, 13 and 19..255 yield the `SM_NONE` entry; every other code has an entry of its own. */
  lemma NoneEntryExactly(c: U8)
    ensures GetAttribute(c) == NoneAttribute <==> c == Code(None0) || !InTable(c)
  {
    if InTable(c) && c != 0 {
      Names(FromCode(c).value);
    }
  }

  /** Looking up a listed head code's value yields that head code's entry. */
  lemma LookupOfType(t: SMType)
    requires t != SpaceMove && t != Max
    ensures Some(GetAttribute(Code(t))) == Entry(t)
  {
    FromCodeCode(t);
  }

  /** The kind legend: kind 0 only for `SM_NONE_0`, kind 2 for three codes, kind 1 with a nonzero size for the rest. */
  lemma KindsOfEntries(t: SMType)
    requires Entry(t).Some?
    ensures Entry(t).value.kind <= KindVariableCompressed
    ensures Entry(t).value.kind == KindEmpty <==> t == None0
    ensures Entry(t).value.kind == KindEmpty ==> Entry(t).value.size == 0
    ensures Entry(t).value.kind == KindFixed <==> t == Ping || t == LoginFail || t == NPCXMLLayout
    ensures Entry(t).value.kind != KindEmpty && Entry(t).value.kind != KindFixed ==>
      Entry(t).value.kind == KindFixedCompressed && Entry(t).value.size > 0
  {
    if t != None0 {
      PayloadSize(t);
    }
  }

  /** Every listed head code other than `SM_NONE_0` carries a payload of at least one byte. */
  lemma PayloadSize(t: SMType)
    requires Entry(t).Some? && t != None0
    ensures Entry(t).value.size > 0
  {
    match t
    case Ping | LoginFail | Exp | Gold => IntegerAttributeSizes();
    case NotifyDead | Miss | Offline | NPCXMLLayout => IdAttributeSizes();
    case UpdateHP | DeadFadeOut | RemoveGroundItem | PickUpOK => FourFieldAttributeSizes();
    case LoginOK | Action | FireMagic => WideAttributeSizes();
    case CORecord | ShowDropItem => CompoundAttributeSizes();
  }

  /** Every kind, listed or fallen back, is one of the legend's five; an empty payload has size zero. */
  lemma KindInLegend(c: U8)
    ensures GetAttribute(c).kind <= KindVariableCompressed
    ensures GetAttribute(c).kind == KindEmpty ==> GetAttribute(c).size == 0
  {
    if InTable(c) {
      LookupOfType(FromCode(c).value);
      KindsOfEntries(FromCode(c).value);
    }
  }

  /** Each entry's name is its head code's identifier, except for `SM_NONE_0`, named "SM_NONE". */
  lemma Names(t: SMType)
    requires t != SpaceMove && t != Max
    ensures GetAttribute(Code(t)).name == if t == None0 then "SM_NONE" else Identifier(t)
  {
    LookupOfType(t);
  }

  /** Each entry's size is the packed size of its struct.  Structs of a single 32-bit field. */
  lemma IntegerAttributeSizes()
    ensures Entry(Ping).value.size == PackedSize(PingCodec) == 4
    ensures Entry(LoginFail).value.size == PackedSize(LoginFailCodec) == 4
    ensures Entry(Exp).value.size == PackedSize(ExpCodec) == 4
    ensures Entry(Gold).value.size == PackedSize(GoldCodec) == 4
  {
    OneFieldSizes();
    assert PackedSize(PingCodec) == Size(PingLayout);
    assert PackedSize(LoginFailCodec) == Size(LoginFailLayout);
    assert PackedSize(ExpCodec) == Size(ExpLayout);
    assert PackedSize(GoldCodec) == Size(GoldLayout);
  }

  /** Each entry's size is the packed size of its struct.  Structs led by a 64-bit id. */
  lemma IdAttributeSizes()
    ensures Entry(NotifyDead).value.size == PackedSize(NotifyDeadCodec) == 8
    ensures Entry(Miss).value.size == PackedSize(MissCodec) == 8
    ensures Entry(Offline).value.size == PackedSize(OfflineCodec) == 12
    ensures Entry(NPCXMLLayout).value.size == PackedSize(NPCXMLLayoutCodec) == 1032
  {
    OneFieldSizes();
    TwoFieldSizes();
    assert PackedSize(NotifyDeadCodec) == Size(NotifyDeadLayout);
    assert PackedSize(MissCodec) == Size(MissLayout);
    assert PackedSize(OfflineCodec) == Size(OfflineLayout);
    assert PackedSize(NPCXMLLayoutCodec) == Size(NPCXMLLayoutLayout);
  }

  /** Each entry's size is the packed size of its struct.  Structs of four fields. */
  lemma FourFieldAttributeSizes()
    ensures Entry(UpdateHP).value.size == PackedSize(UpdateHPCodec) == 20
    ensures Entry(DeadFadeOut).value.size == PackedSize(DeadFadeOutCodec) == 20
    ensures Entry(RemoveGroundItem).value.size == PackedSize(RemoveGroundItemCodec) == 12
    ensures Entry(PickUpOK).value.size == PackedSize(PickUpOKCodec) == 12
  {
    FourFieldSizes();
    assert PackedSize(UpdateHPCodec) == Size(UpdateHPLayout);
    assert PackedSize(DeadFadeOutCodec) == Size(DeadFadeOutLayout);
    assert PackedSize(RemoveGroundItemCodec) == Size(RemoveGroundItemLayout);
    assert PackedSize(PickUpOKCodec) == Size(PickUpOKLayout);
  }

  /** Each entry's size is the packed size of its struct.  Structs of nine to eleven fields. */
  lemma WideAttributeSizes()
    ensures Entry(LoginOK).value.size == PackedSize(LoginOKCodec) == 30
    ensures Entry(Action).value.size == PackedSize(ActionCodec) == 39
    ensures Entry(FireMagic).value.size == PackedSize(FireMagicCodec) == 32
  {
    LoginOKSize();
    ActionSize();
    FireMagicSize();
    assert PackedSize(LoginOKCodec) == Size(LoginOKLayout);
    assert PackedSize(ActionCodec) == Size(ActionLayout);
    assert PackedSize(FireMagicCodec) == Size(FireMagicLayout);
  }

  /** Each entry's size is the packed size of its struct.  Structs holding a nested struct and a union, or an array. */
  lemma CompoundAttributeSizes()
    ensures Entry(CORecord).value.size == PackedSize(CORecordCodec) == 51
    ensures Entry(ShowDropItem).value.size == PackedSize(ShowDropItemCodec) == 132
  {
    CORecordSize();
    ShowDropItemSize();
    assert PackedSize(CORecordCodec) == Size(CORecordLayout);
    assert PackedSize(ShowDropItemCodec) == Size(ShowDropItemLayout);
  }

  /** The one way `conv` can fail. */
  datatype ConvError = InvalidBufferLength

  /**
   * `conv<T>`: a nonzero `bufLen` other than the struct's size is rejected;
   * otherwise the record is read from the first `PackedSize(c)` bytes of `buf`,
   * which the caller must supply.
   */
  function Conv<T(!new)>(c: Codec<T>, buf: seq<Byte>, bufLen: U64): (r: Result<T, ConvError>)
    requires IsCodec(c)
    requires bufLen == 0 || bufLen == PackedSize(c) ==> PackedSize(c) <= |buf|
    ensures r.Failure? <==> bufLen != 0 && bufLen != PackedSize(c)
    ensures r.Failure? ==> r.error == InvalidBufferLength
    ensures r.Success? ==> EncodeWith(c, r.value) == buf[..PackedSize(c)]
  {
    if bufLen != 0 && bufLen != PackedSize(c) then Failure(InvalidBufferLength)
    else Success(DecodeWith(c, buf))
  }

  /** Encoding a record and converting its bytes back, with `bufLen` 0 or the struct's size, gives the record. */
  lemma ConvRoundTrip<T(!new)>(c: Codec<T>, x: T, rest: seq<Byte>, bufLen: U64)
    requires IsCodec(c)
    requires bufLen == 0 || bufLen == PackedSize(c)
    ensures Conv(c, EncodeWith(c, x) + rest, bufLen) == Success(x)
  {
    DecodeEncodeWith(c, x, rest);
  }

  /** Bytes after the first `PackedSize(c)` do not affect the result. */
  lemma ConvIgnoresTrailingBytes<T(!new)>(c: Codec<T>, buf: seq<Byte>, buf': seq<Byte>, bufLen: U64)
    requires IsCodec(c)
    requires PackedSize(c) <= |buf| && PackedSize(c) <= |buf'|
    requires buf[..PackedSize(c)] == buf'[..PackedSize(c)]
    ensures Conv(c, buf, bufLen) == Conv(c, buf', bufLen)
  {
    if bufLen == 0 || bufLen == PackedSize(c) {
      EncodeWithInjective(c, Conv(c, buf, bufLen).value, Conv(c, buf', bufLen).value);
    }
  }

  /** Two successful conversions agree exactly when the bytes they read agree. */
  lemma ConvInjective<T(!new)>(c: Codec<T>, buf: seq<Byte>, buf': seq<Byte>, bufLen: U64)
    requires IsCodec(c)
    requires bufLen == 0 || bufLen == PackedSize(c)
    requires PackedSize(c) <= |buf| && PackedSize(c) <= |buf'|
    ensures Conv(c, buf, bufLen) == Conv(c, buf', bufLen) <==> buf[..PackedSize(c)] == buf'[..PackedSize(c)]
  {
    if buf[..PackedSize(c)] == buf'[..PackedSize(c)] {
      ConvIgnoresTrailingBytes(c, buf, buf', bufLen);
    }
  }
}
