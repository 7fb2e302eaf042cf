# mir2x server messages: head codes, attribute table and payload decoding

This project is a Dafny model of the server-to-client message definitions of
mir2x (`common/src/servermsg.hpp`). A message has a one-byte head code
(`SMType`) and a payload laid out as a packed struct. The model covers three
things.

- **The head codes and the attribute table.** `ServerMsg::getAttribute` maps a
  head code to `{kind, size, name}`. A code without an entry falls back to the
  `SM_NONE_0` entry.
- **The packed payload structs.** Every struct is declared under
  `#pragma pack(push, 1)`, so there is no padding. Its `sizeof` is the sum of
  its field widths. An array takes its element size times its count. A union
  takes its widest member.
- **The decoder `ServerMsg::conv<T>`.** It rejects a nonzero `bufLen` that
  differs from `sizeof(T)`. Otherwise it copies the first `sizeof(T)` bytes of
  the buffer into a `T`.

The behaviour is pure, so the model is made of datatypes, functions and lemmas.

- `wrappers.dfy` (module `Wrappers`): `Option` and `Result`. A thrown
  `fflerror` becomes a `Failure`.
- `packed.dfy` (module `Packed`):
  - the byte-level codec for unsigned integers;
  - a generic field layout (`UInt(width)` or `Raw(count)` bytes), with its
    `Size`, `Encode` and `Decode`;
  - `Codec<T>`, which ties a struct datatype to its layout;
  - the round-trip lemmas.
- `servermsg_structs.dfy` (module `ServerMsgStructs`): for each struct, one
  datatype, its layout, its codec and its size.
- `servermsg.dfy` (module `ServerMsg`): `SMType`, `MsgAttribute`, the table
  (`Entry`), `GetAttribute` and `Conv`.

**Byte order.** `conv` uses `memcpy`, so the source's byte order is that of the
host. The model fixes one order: every integer field is little-endian, lowest
byte first. Character arrays and the union are kept as raw bytes. Nothing in
the model claims bit-for-bit agreement with any particular CPU.

**Modelling choices.**

- **Integer fields** have the subset types `U8`/`U16`/`U32`/`U64` (`0 <= x < 2^w`).
  No arithmetic is done on them, so wrap-around does not arise.
- **Character arrays** (`ID[64]`, `Password[128]`, `xmlLayout[1024]`) are byte
  sequences of exactly that length.
- **The nested `_Action` struct of `SMCORecord`** has the same fields, in the
  same order, as `SMAction`. The model therefore reuses the `SMAction` datatype
  for it.
- **The anonymous union of `SMCORecord`** is kept as its 12 raw bytes and is
  not a tagged variant. `AsMonster`, `AsPlayer` and `AsNPC` read the bytes as
  one member each.
- **`SMType`** uses PascalCase constructors. `Identifier` gives the declared
  name (`SM_PING`, …), and `Code` gives the numeric value.
- **The table** is the function `Entry` on `SMType`. It has no entry for
  `SpaceMove` or `Max`, just like the source's `unordered_map`.
- **`conv`** is the generic `Conv(c, buf, bufLen)`. Its codec argument `c`
  stands for the template parameter `T`. A codec constant exists for each of
  the 18 types that `conv`'s `static_assert` admits. `SMAccount` is one of
  them, although it has no table entry.
- **`bufLen`** has type `U64` (`size_t`).

## Model

| member | source | states |
|---|---|---|
| ServerMsg.Code | common/src/servermsg.hpp:24-46 | every head code is a byte below 20 (`SM_MAX` is 19) |
| ServerMsg.FromCode | common/src/servermsg.hpp:24-46 | a byte names a head code exactly when it is below 20, and then that head code's value is the byte |
| ServerMsg.FromCodeCode | common/src/servermsg.hpp:24-46 | decoding a head code's value gives the head code back |
| ServerMsg.CodeInjective | common/src/servermsg.hpp:24-46 | two head codes have the same value only if they are the same code |
| ServerMsg.Identifier | common/src/servermsg.hpp:24-46 | every head code is declared under an identifier with the `SM_` prefix |
| ServerMsg.Entry | common/src/servermsg.hpp:265-282 | the table has no entry exactly for `SM_SPACEMOVE` and `SM_MAX`; each entry has the kind, size and name of its row, and its name is the head code's identifier, except `"SM_NONE"` for `SM_NONE_0` |
| ServerMsg.InTable | common/src/servermsg.hpp:285-288 | the lookup finds a byte exactly when it is below 20 and is neither `SM_SPACEMOVE` (13) nor `SM_MAX` (19) |
| ServerMsg.ListedTypes | common/src/servermsg.hpp:265-288 | the lookup finds a head code's value exactly when the code is neither `SM_SPACEMOVE` nor `SM_MAX`, so `SM_SPACEMOVE` is the only code below `SM_MAX` it misses |
| ServerMsg.GetAttribute | common/src/servermsg.hpp:255-289 | the lookup is total: a listed code yields its own entry and any other byte yields `{0, 0, "SM_NONE"}` |
| ServerMsg.FallbackCodes | common/src/servermsg.hpp:285-288 | a code falls back exactly when it is 13, 19 or 20..255, and the fallback is `{0, 0, "SM_NONE"}` |
| ServerMsg.NoneEntryExactly | common/src/servermsg.hpp:265-288 | the lookup yields the `SM_NONE` record exactly for 0 and for the codes that fall back; every other code has an entry of its own |
| ServerMsg.LookupOfType | common/src/servermsg.hpp:285-287 | looking up a listed head code's value yields that head code's table entry |
| ServerMsg.KindsOfEntries | common/src/servermsg.hpp:259-282 | every kind is in 0..4; kind 0 only for `SM_NONE_0`, with size 0; kind 2 exactly for `SM_PING`, `SM_LOGINFAIL` and `SM_NPCXMLLAYOUT`; every other entry has kind 1 and a nonzero size |
| ServerMsg.PayloadSize | common/src/servermsg.hpp:266-282 | every listed head code other than `SM_NONE_0` records a payload of at least one byte |
| ServerMsg.KindInLegend | common/src/servermsg.hpp:259-288 | whatever the byte, the kind returned is one of the legend's five, and kind 0 comes with size 0 |
| ServerMsg.Names | common/src/servermsg.hpp:265-282 | each entry's name is its head code's identifier, except that `SM_NONE_0` is named `"SM_NONE"` |
| ServerMsg.IntegerAttributeSizes | common/src/servermsg.hpp:266-282 | the size of the `SM_PING`, `SM_LOGINFAIL`, `SM_EXP` and `SM_GOLD` entries is `sizeof` of their struct, 4 |
| ServerMsg.IdAttributeSizes | common/src/servermsg.hpp:272-281 | the size of the `SM_NOTIFYDEAD`, `SM_MISS`, `SM_OFFLINE` and `SM_NPCXMLLAYOUT` entries is `sizeof` of their struct: 8, 8, 12 and 1032 |
| ServerMsg.FourFieldAttributeSizes | common/src/servermsg.hpp:271-280 | the size of the `SM_UPDATEHP`, `SM_DEADFADEOUT`, `SM_REMOVEGROUNDITEM` and `SM_PICKUPOK` entries is `sizeof` of their struct: 20, 20, 12 and 12 |
| ServerMsg.WideAttributeSizes | common/src/servermsg.hpp:267-277 | the size of the `SM_LOGINOK`, `SM_ACTION` and `SM_FIREMAGIC` entries is `sizeof` of their struct: 30, 39 and 32 |
| ServerMsg.CompoundAttributeSizes | common/src/servermsg.hpp:270-276 | the size of the `SM_CORECORD` and `SM_SHOWDROPITEM` entries is `sizeof` of their struct: 51 and 132 |
| ServerMsg.Conv | common/src/servermsg.hpp:292-321 | `conv` fails, with the invalid-buffer-length error, exactly when `bufLen` is nonzero and differs from `sizeof(T)`; on success the record's packed bytes are the first `sizeof(T)` bytes of the buffer |
| ServerMsg.ConvRoundTrip | common/src/servermsg.hpp:314-320 | converting a record's packed bytes, followed by anything, with `bufLen` 0 or `sizeof(T)` gives the record back |
| ServerMsg.ConvIgnoresTrailingBytes | common/src/servermsg.hpp:318-320 | bytes after the first `sizeof(T)` do not change the result |
| ServerMsg.ConvInjective | common/src/servermsg.hpp:314-320 | for `bufLen` 0 or `sizeof(T)`, two buffers convert to the same record exactly when their first `sizeof(T)` bytes agree |
| Packed.EncodeUInt | common/src/servermsg.hpp:318-320 | an integer below 256^n is written as exactly n bytes |
| Packed.DecodeUInt | common/src/servermsg.hpp:318-320 | n bytes read as an integer below 256^n |
| Packed.DecodeEncodeUInt | common/src/servermsg.hpp:318-320 | reading back the n bytes of an integer gives the integer |
| Packed.EncodeDecodeUInt | common/src/servermsg.hpp:318-320 | writing back the integer read from some bytes gives the same bytes |
| Packed.EncodeField | common/src/servermsg.hpp:48-245 | a field value takes exactly its field's width |
| Packed.DecodeField | common/src/servermsg.hpp:48-245 | a field read from enough bytes is a value of the field's type |
| Packed.DecodeEncodeField | common/src/servermsg.hpp:318-320 | a field's bytes read back as the field, whatever follows them |
| Packed.EncodeDecodeField | common/src/servermsg.hpp:318-320 | a field read and written back gives exactly the bytes read |
| Packed.Size | common/src/servermsg.hpp:48-245 | under `pack(1)` a struct occupies the sum of its member widths, with no padding |
| Packed.FieldOffset | common/src/servermsg.hpp:48-245 | the size splits at any member into the widths before it, its own width and the widths after it |
| Packed.FieldBytes | common/src/servermsg.hpp:48-245 | under `pack(1)` the bytes of member k sit at the sum of the widths before it and are exactly that member's own encoding |
| Packed.EncodeAppend | common/src/servermsg.hpp:105-148 | a struct nested before further members contributes its own packed bytes, unchanged, followed by the bytes of the members after it |
| Packed.Encode | common/src/servermsg.hpp:48-245 | a struct's bytes are exactly as many as its packed size |
| Packed.Decode | common/src/servermsg.hpp:318-320 | the fields read from enough bytes fit the layout |
| Packed.DecodeEncode | common/src/servermsg.hpp:318-320 | a struct's packed bytes read back as its fields, whatever follows them |
| Packed.EncodeDecode | common/src/servermsg.hpp:318-320 | fields read and written back give exactly the first packed-size bytes |
| Packed.DecodePrefix | common/src/servermsg.hpp:318-320 | decoding reads no byte past the packed size |
| Packed.DecodeOfPrefix | common/src/servermsg.hpp:318-320 | decoding the first packed-size bytes alone gives the same fields |
| Packed.SizeAppend | common/src/servermsg.hpp:105-148 | the packed size of one layout followed by another is the sum of their sizes |
| Packed.FitsAllAppend | common/src/servermsg.hpp:105-148 | values fit two layouts placed one after the other exactly when each part fits its own layout |
| Packed.Repeat | common/src/servermsg.hpp:185-189 | the layout of an array of `count` elements has `count` times the element's field count |
| Packed.SizeRepeat | common/src/servermsg.hpp:185-189 | an array occupies its element size times its element count |
| Packed.PackedSize | common/src/servermsg.hpp:48-245 | `sizeof(T)` of a struct under `pack(1)` is its layout's packed size |
| Packed.EncodeWith | common/src/servermsg.hpp:318-320 | a record's packed bytes number exactly `sizeof(T)` |
| Packed.DecodeWith | common/src/servermsg.hpp:318-320 | the record read from at least `sizeof(T)` bytes is the one whose packed bytes are those first bytes |
| Packed.DecodeEncodeWith | common/src/servermsg.hpp:318-320 | a record's packed bytes, followed by anything, read back as the record |
| Packed.EncodeWithInjective | common/src/servermsg.hpp:318-320 | distinct records have distinct packed bytes |
| Packed.DecodeWithPrefix | common/src/servermsg.hpp:318-320 | reading a record looks only at the first `sizeof(T)` bytes |
| ServerMsgStructs.SMPing.Fields | common/src/servermsg.hpp:49-52 | an `SMPing`'s field values fit its layout (one `uint32_t`) |
| ServerMsgStructs.SMPing.FromFields | common/src/servermsg.hpp:49-52 | any values fitting the layout come from exactly one `SMPing` |
| ServerMsgStructs.SMAccount.Fields | common/src/servermsg.hpp:54-65 | an `SMAccount`'s field values fit its layout (two `uint8_t`, `char[64]`, `char[128]`) |
| ServerMsgStructs.SMAccount.FromFields | common/src/servermsg.hpp:54-65 | any values fitting the layout come from exactly one `SMAccount` |
| ServerMsgStructs.SMLoginOK.Fields | common/src/servermsg.hpp:67-80 | an `SMLoginOK`'s field values fit its nine-field layout |
| ServerMsgStructs.SMLoginOK.FromFields | common/src/servermsg.hpp:67-80 | any values fitting the layout come from exactly one `SMLoginOK` |
| ServerMsgStructs.SMLoginFail.Fields | common/src/servermsg.hpp:82-85 | an `SMLoginFail`'s field values fit its layout |
| ServerMsgStructs.SMLoginFail.FromFields | common/src/servermsg.hpp:82-85 | any values fitting the layout come from exactly one `SMLoginFail` |
| ServerMsgStructs.SMAction.Fields | common/src/servermsg.hpp:87-103 | an `SMAction`'s (and `_Action`'s) field values fit its eleven-field layout |
| ServerMsgStructs.SMAction.FromFields | common/src/servermsg.hpp:87-103 | any values fitting the layout come from exactly one `SMAction` |
| ServerMsgStructs.SMCORecordMonster.Fields | common/src/servermsg.hpp:125-128 | the monster member's field values fit its layout |
| ServerMsgStructs.SMCORecordMonster.FromFields | common/src/servermsg.hpp:125-128 | any values fitting the layout come from exactly one monster member |
| ServerMsgStructs.SMCORecordPlayer.Fields | common/src/servermsg.hpp:130-135 | the player member's field values fit its layout |
| ServerMsgStructs.SMCORecordPlayer.FromFields | common/src/servermsg.hpp:130-135 | any values fitting the layout come from exactly one player member |
| ServerMsgStructs.SMCORecordNPC.Fields | common/src/servermsg.hpp:137-140 | the NPC member's field values fit its layout |
| ServerMsgStructs.SMCORecordNPC.FromFields | common/src/servermsg.hpp:137-140 | any values fitting the layout come from exactly one NPC member |
| ServerMsgStructs.UnionSizeIsWidestMember | common/src/servermsg.hpp:142-147 | the union is 12 bytes, the width of its widest member (the player, 12; monster and NPC are 4) |
| ServerMsgStructs.SMCORecord.Fields | common/src/servermsg.hpp:105-148 | an `SMCORecord`'s field values fit `_Action` followed by the 12 union bytes |
| ServerMsgStructs.SMCORecord.FromFields | common/src/servermsg.hpp:105-148 | any values fitting that layout come from exactly one `SMCORecord` |
| ServerMsgStructs.AsMonster | common/src/servermsg.hpp:142-147 | the monster member is the one whose packed bytes are the union's first 4 bytes |
| ServerMsgStructs.AsPlayer | common/src/servermsg.hpp:142-147 | the player member is the one whose packed bytes are all 12 union bytes |
| ServerMsgStructs.AsNPC | common/src/servermsg.hpp:142-147 | the NPC member is the one whose packed bytes are the union's first 4 bytes |
| ServerMsgStructs.UnionMembersOverlap | common/src/servermsg.hpp:142-147 | the members share storage: `Monster.MonsterID`, `Player.DBID` and `NPC.NPCID` are the same value |
| ServerMsgStructs.SMUpdateHP.Fields | common/src/servermsg.hpp:150-157 | an `SMUpdateHP`'s field values fit its layout |
| ServerMsgStructs.SMUpdateHP.FromFields | common/src/servermsg.hpp:150-157 | any values fitting the layout come from exactly one `SMUpdateHP` |
| ServerMsgStructs.SMDeadFadeOut.Fields | common/src/servermsg.hpp:159-166 | an `SMDeadFadeOut`'s field values fit its layout |
| ServerMsgStructs.SMDeadFadeOut.FromFields | common/src/servermsg.hpp:159-166 | any values fitting the layout come from exactly one `SMDeadFadeOut` |
| ServerMsgStructs.SMNotifyDead.Fields | common/src/servermsg.hpp:168-171 | an `SMNotifyDead`'s field values fit its layout |
| ServerMsgStructs.SMNotifyDead.FromFields | common/src/servermsg.hpp:168-171 | any values fitting the layout come from exactly one `SMNotifyDead` |
| ServerMsgStructs.SMExp.Fields | common/src/servermsg.hpp:173-176 | an `SMExp`'s field values fit its layout |
| ServerMsgStructs.SMExp.FromFields | common/src/servermsg.hpp:173-176 | any values fitting the layout come from exactly one `SMExp` |
| ServerMsgStructs.SMMiss.Fields | common/src/servermsg.hpp:178-181 | an `SMMiss`'s field values fit its layout |
| ServerMsgStructs.SMMiss.FromFields | common/src/servermsg.hpp:178-181 | any values fitting the layout come from exactly one `SMMiss` |
| ServerMsgStructs.ItemsFields | common/src/servermsg.hpp:185-189 | the fields of `n` items fit `n` copies of the item layout |
| ServerMsgStructs.ItemsFromFields | common/src/servermsg.hpp:185-189 | values fitting `n` copies of the item layout come from exactly `n` items |
| ServerMsgStructs.ItemsFromItemsFields | common/src/servermsg.hpp:185-189 | reading items back from their fields gives the same items |
| ServerMsgStructs.SMShowDropItem.Fields | common/src/servermsg.hpp:183-193 | an `SMShowDropItem`'s field values fit 16 item layouts followed by `X` and `Y` |
| ServerMsgStructs.SMShowDropItem.FromFields | common/src/servermsg.hpp:183-193 | any values fitting that layout come from exactly one `SMShowDropItem` |
| ServerMsgStructs.SMFireMagic.Fields | common/src/servermsg.hpp:195-210 | an `SMFireMagic`'s field values fit its eleven-field layout |
| ServerMsgStructs.SMFireMagic.FromFields | common/src/servermsg.hpp:195-210 | any values fitting the layout come from exactly one `SMFireMagic` |
| ServerMsgStructs.SMOffline.Fields | common/src/servermsg.hpp:212-216 | an `SMOffline`'s field values fit its layout |
| ServerMsgStructs.SMOffline.FromFields | common/src/servermsg.hpp:212-216 | any values fitting the layout come from exactly one `SMOffline` |
| ServerMsgStructs.SMRemoveGroundItem.Fields | common/src/servermsg.hpp:218-224 | an `SMRemoveGroundItem`'s field values fit its layout |
| ServerMsgStructs.SMRemoveGroundItem.FromFields | common/src/servermsg.hpp:218-224 | any values fitting the layout come from exactly one `SMRemoveGroundItem` |
| ServerMsgStructs.SMPickUpOK.Fields | common/src/servermsg.hpp:226-232 | an `SMPickUpOK`'s field values fit its layout |
| ServerMsgStructs.SMPickUpOK.FromFields | common/src/servermsg.hpp:226-232 | any values fitting the layout come from exactly one `SMPickUpOK` |
| ServerMsgStructs.SMGold.Fields | common/src/servermsg.hpp:234-237 | an `SMGold`'s field values fit its layout |
| ServerMsgStructs.SMGold.FromFields | common/src/servermsg.hpp:234-237 | any values fitting the layout come from exactly one `SMGold` |
| ServerMsgStructs.SMNPCXMLLayout.Fields | common/src/servermsg.hpp:239-243 | an `SMNPCXMLLayout`'s field values fit its layout (`uint64_t`, `char[1024]`) |
| ServerMsgStructs.SMNPCXMLLayout.FromFields | common/src/servermsg.hpp:239-243 | any values fitting the layout come from exactly one `SMNPCXMLLayout` |
| ServerMsgStructs.ActionSize | common/src/servermsg.hpp:87-103 | `sizeof(SMAction)` is the sum of its field widths, 39 |
| ServerMsgStructs.CORecordSize | common/src/servermsg.hpp:105-148 | `sizeof(SMCORecord)` is `sizeof(_Action)` plus the widest union member, 39 + 12 = 51 |
| ServerMsgStructs.FireMagicSize | common/src/servermsg.hpp:195-210 | `sizeof(SMFireMagic)` is the sum of its field widths, 32 |
| ServerMsgStructs.ShowDropItemSize | common/src/servermsg.hpp:183-193 | `sizeof(SMShowDropItem)` is 16 items of 8 bytes plus two 16-bit fields, 132 |
| ServerMsgStructs.LoginOKSize | common/src/servermsg.hpp:67-80 | `sizeof(SMLoginOK)` is the sum of its field widths, 30 |
| ServerMsgStructs.OneFieldSizes | common/src/servermsg.hpp:49-237 | `SMPing`, `SMLoginFail`, `SMExp` and `SMGold` are 4 bytes; `SMNotifyDead` and `SMMiss` are 8 |
| ServerMsgStructs.TwoFieldSizes | common/src/servermsg.hpp:212-243 | `SMOffline` is 8 + 4 = 12 bytes and `SMNPCXMLLayout` is 8 + 1024 = 1032 |
| ServerMsgStructs.FourFieldSizes | common/src/servermsg.hpp:54-232 | `SMAccount` is 194 bytes; `SMUpdateHP` and `SMDeadFadeOut` are 20; `SMRemoveGroundItem` and `SMPickUpOK` are 12 |
| ServerMsgStructs.PingCodecIsCodec | common/src/servermsg.hpp:294-312 | `SMPing`, one of the types the `static_assert` admits, is in one-to-one correspondence with the field values that fit its layout, so `conv` applies to it |
| ServerMsgStructs.AccountCodecIsCodec | common/src/servermsg.hpp:294-312 | `SMAccount`, one of the types the `static_assert` admits, is in one-to-one correspondence with the field values that fit its layout, so `conv` applies to it |
| ServerMsgStructs.LoginOKCodecIsCodec | common/src/servermsg.hpp:294-312 | `SMLoginOK`, one of the types the `static_assert` admits, is in one-to-one correspondence with the field values that fit its layout, so `conv` applies to it |
| ServerMsgStructs.LoginFailCodecIsCodec | common/src/servermsg.hpp:294-312 | `SMLoginFail`, one of the types the `static_assert` admits, is in one-to-one correspondence with the field values that fit its layout, so `conv` applies to it |
| ServerMsgStructs.ActionCodecIsCodec | common/src/servermsg.hpp:294-312 | `SMAction`, one of the types the `static_assert` admits, is in one-to-one correspondence with the field values that fit its layout, so `conv` applies to it |
| ServerMsgStructs.MonsterCodecIsCodec | common/src/servermsg.hpp:125-128 | the monster member of the `SMCORecord` union is in one-to-one correspondence with the field values that fit its layout, so its bytes inside the union can be read back |
| ServerMsgStructs.PlayerCodecIsCodec | common/src/servermsg.hpp:130-135 | the player member of the `SMCORecord` union is in one-to-one correspondence with the field values that fit its layout, so its bytes inside the union can be read back |
| ServerMsgStructs.NPCCodecIsCodec | common/src/servermsg.hpp:137-140 | the NPC member of the `SMCORecord` union is in one-to-one correspondence with the field values that fit its layout, so its bytes inside the union can be read back |
| ServerMsgStructs.CORecordCodecIsCodec | common/src/servermsg.hpp:294-312 | `SMCORecord`, one of the types the `static_assert` admits, is in one-to-one correspondence with the field values that fit its layout, so `conv` applies to it |
| ServerMsgStructs.UpdateHPCodecIsCodec | common/src/servermsg.hpp:294-312 | `SMUpdateHP`, one of the types the `static_assert` admits, is in one-to-one correspondence with the field values that fit its layout, so `conv` applies to it |
| ServerMsgStructs.DeadFadeOutCodecIsCodec | common/src/servermsg.hpp:294-312 | `SMDeadFadeOut`, one of the types the `static_assert` admits, is in one-to-one correspondence with the field values that fit its layout, so `conv` applies to it |
| ServerMsgStructs.NotifyDeadCodecIsCodec | common/src/servermsg.hpp:294-312 | `SMNotifyDead`, one of the types the `static_assert` admits, is in one-to-one correspondence with the field values that fit its layout, so `conv` applies to it |
| ServerMsgStructs.ExpCodecIsCodec | common/src/servermsg.hpp:294-312 | `SMExp`, one of the types the `static_assert` admits, is in one-to-one correspondence with the field values that fit its layout, so `conv` applies to it |
| ServerMsgStructs.MissCodecIsCodec | common/src/servermsg.hpp:294-312 | `SMMiss`, one of the types the `static_assert` admits, is in one-to-one correspondence with the field values that fit its layout, so `conv` applies to it |
| ServerMsgStructs.ShowDropItemCodecIsCodec | common/src/servermsg.hpp:294-312 | `SMShowDropItem`, one of the types the `static_assert` admits, is in one-to-one correspondence with the field values that fit its layout, so `conv` applies to it |
| ServerMsgStructs.FireMagicCodecIsCodec | common/src/servermsg.hpp:294-312 | `SMFireMagic`, one of the types the `static_assert` admits, is in one-to-one correspondence with the field values that fit its layout, so `conv` applies to it |
| ServerMsgStructs.OfflineCodecIsCodec | common/src/servermsg.hpp:294-312 | `SMOffline`, one of the types the `static_assert` admits, is in one-to-one correspondence with the field values that fit its layout, so `conv` applies to it |
| ServerMsgStructs.RemoveGroundItemCodecIsCodec | common/src/servermsg.hpp:294-312 | `SMRemoveGroundItem`, one of the types the `static_assert` admits, is in one-to-one correspondence with the field values that fit its layout, so `conv` applies to it |
| ServerMsgStructs.PickUpOKCodecIsCodec | common/src/servermsg.hpp:294-312 | `SMPickUpOK`, one of the types the `static_assert` admits, is in one-to-one correspondence with the field values that fit its layout, so `conv` applies to it |
| ServerMsgStructs.GoldCodecIsCodec | common/src/servermsg.hpp:294-312 | `SMGold`, one of the types the `static_assert` admits, is in one-to-one correspondence with the field values that fit its layout, so `conv` applies to it |
| ServerMsgStructs.NPCXMLLayoutCodecIsCodec | common/src/servermsg.hpp:294-312 | `SMNPCXMLLayout`, one of the types the `static_assert` admits, is in one-to-one correspondence with the field values that fit its layout, so `conv` applies to it |

## Left out

- `common/src/mir2map.hpp` declares the map quad-tree compressor and parser,
  `Expand`/`CropSize`, door, animation and extraction routines, and the
  `MAPFILEHEADER`/`TILEINFO`/`CELLINFO` layouts. The file has no bodies for
  them, so they are not modelled.
- `MsgBase` and `MsgAttribute` are defined in `msgbase.hpp`. That file is not
  part of this model. The attribute is modelled as a plain three-field
  datatype. The `ServerMsg` constructor, the inheritance from `MsgBase` and
  the virtual dispatch of `getAttribute` are not modelled.
- The `std::unordered_map` hashing and the function-local `static`
  initialisation are left out. The table is a `match` on the head code.
- Native-endian `memcpy` reinterpretation is not modelled. The model fixes
  little-endian integers and does not claim any CPU's layout.
- The legend names compression for kind-1 payloads, but the compression is
  done elsewhere, in code that is not part of this model.
- The `fflerror` exception type and its message text are left out. Failure is
  the single `ConvError.InvalidBufferLength` value.
- Rendering, image packages and FLTK types used by `mir2map.hpp` are external
  libraries and are left out.
- `Conv`'s `requires` asks for at least `sizeof(T)` bytes when the length check
  passes. The source copies that many bytes from a raw pointer without
  checking. Reading past the buffer is undefined behaviour, so it is not
  modelled.
- The `static_assert` list of admissible `T` is a compile-time check. In the
  model it becomes the set of codec constants. `Conv` accepts any well-formed
  codec.
