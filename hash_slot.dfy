/**
 * Key to hash-slot computation of a Redis Cluster client (src/lib.rs,
 * `slot_for_packed_command`, `command_key`, `sub_key`).
 *
 * A command is an array of bulk strings; its second element is the key.  Only
 * the hash tag of the key (the bytes between the first `{` and the first `}`
 * after it, when that span is not empty) is hashed, with CRC-16/XMODEM, and
 * the hash is reduced modulo the 16384 slots of the cluster (Redis Cluster
 * Specification, sections "Key distribution model" and "Hash tags").
 */
module HashSlot {
  import opened Wrappers

  type byte = bv8

  /** A protocol value as the Redis reply/request parser delivers it (`redis::Value`). */
  datatype Value =
    | Nil
    | Int(i: int)
    | Data(bytes: seq<byte>)
    | Bulk(items: seq<Value>)
    | Status(text: string)
    | Okay

  /** Number of hash slots of a Redis cluster (`SLOT_SIZE`). */
  const SlotSize: nat := 16384

  const OpenBrace: byte := 0x7B
  const CloseBrace: byte := 0x7D

  // ---------------------------------------------------------------------------
  // CRC-16/XMODEM: polynomial 0x1021, initial value 0, no reflection, no final xor.

  const Polynomial: bv16 := 0x1021

  /** One bit of the shift register: shift left, xor the polynomial when a one falls out. */
  function ShiftBit(crc: bv16): bv16 {
    (crc << 1) ^ (if crc & 0x8000 != 0 then Polynomial else 0)
  }

  /** Feeds one byte, most significant bit first. */
  function CrcByte(crc: bv16, b: byte): bv16 {
    ShiftByte(crc ^ ((b as bv16) << 8))
  }

  function ShiftByte(c: bv16): bv16 {
    ShiftBit(ShiftBit(ShiftBit(ShiftBit(ShiftBit(ShiftBit(ShiftBit(ShiftBit(c))))))))
  }

  /** Feeds the bytes of `data` in order, starting from register value `crc`. */
  function CrcUpdate(crc: bv16, data: seq<byte>): bv16
    decreases |data|
  {
    if |data| == 0 then crc else CrcUpdate(CrcByte(crc, data[0]), data[1..])
  }

  function Crc16(data: seq<byte>): bv16 {
    CrcUpdate(0, data)
  }

  /** Feeding a message in two pieces is the same as feeding it at once. */
  lemma {:induction false} CrcUpdateAppend(crc: bv16, a: seq<byte>, b: seq<byte>)
    ensures CrcUpdate(crc, a + b) == CrcUpdate(CrcUpdate(crc, a), b)
    decreases |a|
  {
    if |a| == 0 {
      assert a + b == b;
    } else {
      assert (a + b)[1..] == a[1..] + b;
      CrcUpdateAppend(CrcByte(crc, a[0]), a[1..], b);
    }
  }

  /** The catalogued check value of CRC-16/XMODEM: the CRC of ASCII "123456789" is 0x31C3. */
  lemma CrcCheckValue()
    ensures Crc16([0x31, 0x32, 0x33, 0x34, 0x35, 0x36, 0x37, 0x38, 0x39]) == 0x31C3
  {
  }

  // ---------------------------------------------------------------------------
  // Hash tags

  /** The index of the first occurrence of `b` in `s`, as `Iterator::position` gives it. */
  function IndexOf(s: seq<byte>, b: byte): (r: Option<nat>)
    ensures r.Some? ==> r.value < |s| && s[r.value] == b && b !in s[..r.value]
    ensures r.None? ==> b !in s
    decreases |s|
  {
    if |s| == 0 then None
    else if s[0] == b then Some(0)
    else match IndexOf(s[1..], b)
      case None => None
      case Some(k) => Some(k + 1)
  }

  /**
   * `open` is the first `{` of `key` and `close` the first `}` after it.
   * The hash tag is the span strictly between them.
   */
  ghost predicate IsTagSpan(key: seq<byte>, open: int, close: int) {
    && 0 <= open < close < |key|
    && key[open] == OpenBrace && OpenBrace !in key[..open]
    && key[close] == CloseBrace && CloseBrace !in key[open + 1..close]
  }

  /**
   * The part of the key that determines its slot (`sub_key`): the bytes
   * strictly between the first `{` and the first `}` after it when there is at
   * least one such byte, and the whole key otherwise (no `{`, no `}` after it,
   * or an empty tag `{}`).
   */
  function SubKey(key: seq<byte>): (r: seq<byte>)
    ensures forall open, close :: IsTagSpan(key, open, close) && open + 1 < close ==> r == key[open + 1..close]
    ensures (forall open, close :: IsTagSpan(key, open, close) ==> close == open + 1) ==> r == key
  {
    match IndexOf(key, OpenBrace)
    case None => key
    case Some(open) =>
      var afterOpen := open + 1;
      match IndexOf(key[afterOpen..], CloseBrace)
      case None =>
        NoTagWithoutClose(key, open);
        key
      case Some(closeOffset) =>
        TagSpanFound(key, open, afterOpen + closeOffset);
        if closeOffset != 0 then key[afterOpen..afterOpen + closeOffset] else key
  }

  /** The first `{` of a key opens every tag span of it. */
  lemma TagSpanOpen(key: seq<byte>, open: nat)
    requires open < |key| && key[open] == OpenBrace && OpenBrace !in key[..open]
    ensures forall o, c :: IsTagSpan(key, o, c) ==> o == open
  {
    assert forall j | 0 <= j < open :: key[j] == key[..open][j];
    assert forall o, j | 0 <= j < o <= |key| :: key[j] == key[..o][j];
  }

  lemma NoTagWithoutClose(key: seq<byte>, open: nat)
    requires open < |key| && key[open] == OpenBrace && OpenBrace !in key[..open]
    requires CloseBrace !in key[open + 1..]
    ensures forall o, c :: !IsTagSpan(key, o, c)
  {
    TagSpanOpen(key, open);
    assert forall j | open + 1 <= j < |key| :: key[j] == key[open + 1..][j - open - 1];
  }

  /** A `{` that is first and a `}` that is the first after it form the only tag span. */
  lemma TagSpanFound(key: seq<byte>, open: nat, close: nat)
    requires open < close < |key| && key[open] == OpenBrace && OpenBrace !in key[..open]
    requires key[close] == CloseBrace && CloseBrace !in key[open + 1..][..close - open - 1]
    ensures IsTagSpan(key, open, close)
    ensures forall o, c :: IsTagSpan(key, o, c) ==> o == open && c == close
  {
    assert key[open + 1..][..close - open - 1] == key[open + 1..close];
    TagSpanOpen(key, open);
    assert forall j | open + 1 <= j < close :: key[j] == key[open + 1..close][j - open - 1];
  }

  /** Applying `SubKey` to its own result changes nothing: a hash tag never contains a `}`. */
  lemma SubKeyIdempotent(key: seq<byte>)
    ensures SubKey(SubKey(key)) == SubKey(key)
  {
    var r := SubKey(key);
    if o, c :| IsTagSpan(key, o, c) && o + 1 < c {
      assert CloseBrace !in r;
      assert forall open, close :: !IsTagSpan(r, open, close);
    }
  }

  /** Keys that share a non-empty hash tag share their slot: this is what lets multi-key commands stay on one node. */
  lemma SameTagSameSlot(k1: seq<byte>, o1: int, c1: int, k2: seq<byte>, o2: int, c2: int)
    requires IsTagSpan(k1, o1, c1) && o1 + 1 < c1
    requires IsTagSpan(k2, o2, c2) && o2 + 1 < c2
    requires k1[o1 + 1..c1] == k2[o2 + 1..c2]
    ensures KeySlot(k1) == KeySlot(k2)
  {
  }

  // ---------------------------------------------------------------------------
  // Commands

  /** The slot of a key: CRC-16/XMODEM of its hash tag, reduced modulo the number of slots. */
  function KeySlot(key: seq<byte>): (s: nat)
    ensures s < SlotSize
  {
    (Crc16(SubKey(key)) as int) % SlotSize
  }

  /** The key of a command (`command_key`): its second element, when that is a bulk string. */
  function CommandKey(command: Value): Option<seq<byte>> {
    match command
    case Bulk(args) =>
      if |args| >= 2 then
        match args[1]
        case Data(key) => Some(key)
        case _ => None
      else None
    case _ => None
  }

  /**
   * The slot a packed command is routed to (`slot_for_packed_command`).
   * `parsed` is what the protocol parser made of the packed bytes: `None`
   * when they did not parse.
   */
  function SlotForCommand(parsed: Option<Value>): (r: Option<nat>)
    ensures r.Some? <==>
      parsed.Some? && parsed.value.Bulk? && |parsed.value.items| >= 2 && parsed.value.items[1].Data?
    ensures r.Some? ==> r.value < SlotSize && r.value == KeySlot(parsed.value.items[1].bytes)
  {
    match parsed
    case None => None
    case Some(command) =>
      match CommandKey(command)
      case None => None
      case Some(key) => Some(KeySlot(key))
  }

  /** A command whose second argument is a bulk string is routed by that key alone. */
  lemma SlotOfKeyedCommand(name: seq<byte>, key: seq<byte>, rest: seq<Value>)
    ensures SlotForCommand(Some(Bulk([Data(name), Data(key)] + rest))) == Some(KeySlot(key))
  {
    assert ([Data(name), Data(key)] + rest)[1] == Data(key);
  }

  // ---------------------------------------------------------------------------
  // The three packed commands of the unit test `slot` in src/lib.rs, as the
  // protocol parser delivers them.  Keys are split in halves of eight bytes.

  const Exists: seq<byte> := [0x45, 0x58, 0x49, 0x53, 0x54, 0x53]
  const Set: seq<byte> := [0x53, 0x45, 0x54]
  const True: seq<byte> := [0x74, 0x72, 0x75, 0x65]
  const Nx: seq<byte> := [0x4E, 0x58]
  const Px: seq<byte> := [0x50, 0x58]
  const Millis: seq<byte> := [0x31, 0x38, 0x30, 0x30, 0x30, 0x30, 0x30]

  const Key1Head: seq<byte> := [244, 93, 23, 40, 126, 127, 253, 33]
  const Key1Tail: seq<byte> := [89, 47, 185, 204, 171, 249, 96, 139]
  const Key2Head: seq<byte> := [36, 241, 197, 111, 180, 254, 5, 175]
  const Key2Tail: seq<byte> := [143, 146, 171, 39, 172, 23, 164, 145]
  const Key3Head: seq<byte> := [169, 233, 247, 59, 50, 247, 100, 232]
  const Key3Tail: seq<byte> := [123, 140, 2, 101, 125, 221, 66, 170]

  lemma Key1Untagged()
    ensures SubKey(Key1Head + Key1Tail) == Key1Head + Key1Tail
  {
    assert OpenBrace !in Key1Head + Key1Tail;
  }

  lemma Key1Crc()
    ensures Crc16(Key1Head + Key1Tail) == 964
  {
    assert CrcUpdate(0, Key1Head) == 57321;
    assert CrcUpdate(57321, Key1Tail) == 964;
    CrcUpdateAppend(0, Key1Head, Key1Tail);
  }

  /** `EXISTS <key>`, a key without braces. */
  lemma SlotOfExistsCommand()
    ensures SlotForCommand(Some(Bulk([Data(Exists), Data(Key1Head + Key1Tail)]))) == Some(964)
  {
    Key1Slot();
    ExistsCommand(Key1Head + Key1Tail, 964);
  }

  lemma ExistsCommand(key: seq<byte>, slot: nat)
    requires KeySlot(key) == slot
    ensures SlotForCommand(Some(Bulk([Data(Exists), Data(key)]))) == Some(slot)
  {
    SlotOfKeyedCommand(Exists, key, []);
    assert [Data(Exists), Data(key)] + [] == [Data(Exists), Data(key)];
  }

  lemma Key1Slot()
    ensures KeySlot(Key1Head + Key1Tail) == 964
  {
    Key1Untagged();
    Key1Crc();
    SlotFromParts(Key1Head + Key1Tail, Key1Head + Key1Tail, 964);
  }

  lemma Key2Untagged()
    ensures SubKey(Key2Head + Key2Tail) == Key2Head + Key2Tail
  {
    assert OpenBrace !in Key2Head + Key2Tail;
  }

  lemma Key2Crc()
    ensures Crc16(Key2Head + Key2Tail) == 57504
  {
    assert CrcUpdate(0, Key2Head) == 6763;
    assert CrcUpdate(6763, Key2Tail) == 57504;
    CrcUpdateAppend(0, Key2Head, Key2Tail);
  }

  /** `SET <key> true NX PX 1800000`, a key without braces. */
  lemma SlotOfSetCommand()
    ensures SlotForCommand(Some(Bulk([Data(Set), Data(Key2Head + Key2Tail), Data(True), Data(Nx), Data(Px), Data(Millis)])))
         == Some(8352)
  {
    Key2Slot();
    SetCommand(Key2Head + Key2Tail, 8352);
  }

  lemma SetCommand(key: seq<byte>, slot: nat)
    requires KeySlot(key) == slot
    ensures SlotForCommand(Some(Bulk([Data(Set), Data(key), Data(True), Data(Nx), Data(Px), Data(Millis)]))) == Some(slot)
  {
    FourOptionCommand(Data(Set), key, Data(True), Data(Nx), Data(Px), Data(Millis));
  }

  lemma FourOptionCommand(name: Value, key: seq<byte>, a: Value, b: Value, c: Value, d: Value)
    ensures SlotForCommand(Some(Bulk([name, Data(key), a, b, c, d]))) == Some(KeySlot(key))
  {
    assert [name, Data(key), a, b, c, d][1] == Data(key);
  }

  lemma Key2Slot()
    ensures KeySlot(Key2Head + Key2Tail) == 8352
  {
    Key2Untagged();
    Key2Crc();
    SlotFromParts(Key2Head + Key2Tail, Key2Head + Key2Tail, 57504);
  }

  /** The slot of a key is its hashed part's checksum reduced modulo the slot count. */
  lemma SlotFromParts(key: seq<byte>, hashed: seq<byte>, crc: nat)
    requires SubKey(key) == hashed && Crc16(hashed) as nat == crc
    ensures KeySlot(key) == crc % SlotSize
  {
  }

  /** The third test key holds the hash tag `{140, 2, 101}` at offsets 8 to 12. */
  lemma Key3Tag()
    ensures SubKey(Key3Head + Key3Tail) == [140, 2, 101]
  {
    var key := Key3Head + Key3Tail;
    assert IsTagSpan(key, 8, 12);
    assert key[9..12] == [140, 2, 101];
  }

  /** `SET <key> true NX PX 1800000` with the tagged key: only the tag is hashed. */
  lemma SlotOfTaggedSetCommand()
    ensures SlotForCommand(Some(Bulk([Data(Set), Data(Key3Head + Key3Tail), Data(True), Data(Nx), Data(Px), Data(Millis)])))
         == Some(5210)
  {
    Key3Slot();
    SetCommand(Key3Head + Key3Tail, 5210);
  }

  lemma Key3Slot()
    ensures KeySlot(Key3Head + Key3Tail) == 5210
  {
    Key3Tag();
    Key3TagCrc();
    SlotFromParts(Key3Head + Key3Tail, [140, 2, 101], 5210);
  }

  lemma Key3TagCrc()
    ensures Crc16([140, 2, 101]) == 5210
  {
  }
}
