/**
 * Parsing of a `CLUSTER SLOTS` reply into slot ranges (the reply-parsing
 * loop of `get_slots` in src/lib.rs).  The reply is an array of entries
 * `[start, end, node, node, ...]`; a node is `[ip, port, ...]`.  The first
 * valid node of an entry is the master of the range, the others its replicas.
 */
module ClusterSlots {
  import opened Wrappers
  import opened HashSlot

  /** A 16-bit unsigned integer (`u16`). */
  type u16 = x: int | 0 <= x < 0x1_0000

  /** A range of slots and the nodes that serve it (`Slot`). */
  datatype Slot = Slot(start: u16, end: u16, master: string, replicas: seq<string>)

  /** `i as u16` on a 64-bit integer keeps its low 16 bits. */
  function Truncate16(i: int): u16 {
    i % 0x1_0000
  }

  // ---------------------------------------------------------------------------
  // Node addresses, "redis://<ip>:<port>"

  /** The text of an ip given as bytes, one character per byte. */
  function Text(bytes: seq<byte>): (s: string)
    ensures |s| == |bytes|
    ensures forall i :: 0 <= i < |bytes| ==> s[i] as int == bytes[i] as int
  {
    if |bytes| == 0 then [] else [bytes[0] as char] + Text(bytes[1..])
  }

  function DigitChar(d: nat): char
    requires d < 10
  {
    ('0' as int + d) as char
  }

  /** Decimal digits of a natural number, without leading zeros. */
  function NatDecimal(n: nat): (s: string)
    ensures |s| > 0
    ensures forall i :: 0 <= i < |s| ==> '0' <= s[i] <= '9'
    decreases n
  {
    if n < 10 then [DigitChar(n)] else NatDecimal(n / 10) + [DigitChar(n % 10)]
  }

  /** Decimal text of an integer, with a leading '-' when it is negative (`{}` on an `i64`). */
  function Decimal(n: int): string {
    if n < 0 then "-" + NatDecimal(-n) else NatDecimal(n)
  }

  /** Reads back a string of decimal digits. */
  function ParseNat(s: string): nat
    requires forall i :: 0 <= i < |s| ==> '0' <= s[i] <= '9'
    decreases |s|
  {
    if |s| == 0 then 0 else 10 * ParseNat(s[..|s| - 1]) + (s[|s| - 1] as int - '0' as int)
  }

  function ParseDecimal(s: string): int
    requires |s| > 0
    requires forall i :: 0 < i < |s| ==> '0' <= s[i] <= '9'
    requires s[0] == '-' || '0' <= s[0] <= '9'
  {
    if s[0] == '-' then 0 - ParseNat(s[1..]) else ParseNat(s)
  }

  lemma {:induction false} NatDecimalRoundTrip(n: nat)
    ensures ParseNat(NatDecimal(n)) == n
    decreases n
  {
    if n >= 10 {
      var s := NatDecimal(n);
      assert s[..|s| - 1] == NatDecimal(n / 10);
      NatDecimalRoundTrip(n / 10);
    }
  }

  /** The port printed into an address is recovered exactly by reading it back. */
  lemma DecimalRoundTrip(n: int)
    ensures ParseDecimal(Decimal(n)) == n
  {
    if n < 0 {
      assert Decimal(n)[1..] == NatDecimal(-n);
      NatDecimalRoundTrip(-n);
    } else {
      NatDecimalRoundTrip(n);
    }
  }

  function Url(ip: seq<byte>, port: int): string {
    "redis://" + Text(ip) + ":" + Decimal(port)
  }

  /**
   * The address of one node description: it must be an array of at least two
   * elements whose first is a bulk string (the ip) and whose second an integer (the port).
   */
  function NodeAddress(node: Value): (r: Option<string>)
    ensures r.Some? <==>
      node.Bulk? && |node.items| >= 2 && node.items[0].Data? && node.items[1].Int?
    ensures r.Some? ==> r.value == Url(node.items[0].bytes, node.items[1].i)
  {
    match node
    case Bulk(fields) =>
      if |fields| < 2 then None
      else if fields[0].Data? && fields[1].Int? then Some(Url(fields[0].bytes, fields[1].i))
      else None
    case _ => None
  }

  /** The addresses of the valid nodes, in order; invalid ones are dropped (`filter_map`). */
  function NodeAddresses(nodes: seq<Value>): (r: seq<string>)
    ensures |r| <= |nodes|
    ensures forall a :: a in r ==> exists n :: n in nodes && NodeAddress(n) == Some(a)
    ensures forall n :: n in nodes && NodeAddress(n).Some? ==> NodeAddress(n).value in r
    decreases |nodes|
  {
    if |nodes| == 0 then []
    else
      var rest := NodeAddresses(nodes[1..]);
      assert forall n :: n in nodes[1..] ==> n in nodes;
      assert forall n :: n in nodes ==> n == nodes[0] || n in nodes[1..];
      match NodeAddress(nodes[0])
      case Some(a) => [a] + rest
      case None => rest
  }

  /** The addresses keep the order of the nodes: those of a concatenation are those of each part. */
  lemma {:induction false} NodeAddressesConcat(a: seq<Value>, b: seq<Value>)
    ensures NodeAddresses(a + b) == NodeAddresses(a) + NodeAddresses(b)
    decreases |a|
  {
    if |a| == 0 {
      assert a + b == b;
    } else {
      assert (a + b)[1..] == a[1..] + b;
      NodeAddressesConcat(a[1..], b);
    }
  }

  /** The first address, which becomes the master, is that of the first valid node. */
  lemma {:induction false} NodeAddressesFirst(nodes: seq<Value>, k: nat)
    requires k < |nodes| && NodeAddress(nodes[k]).Some?
    requires forall j :: 0 <= j < k ==> NodeAddress(nodes[j]).None?
    ensures |NodeAddresses(nodes)| > 0 && NodeAddresses(nodes)[0] == NodeAddress(nodes[k]).value
    decreases k
  {
    if k > 0 {
      var rest := nodes[1..];
      assert forall j :: 0 <= j < k - 1 ==> rest[j] == nodes[j + 1];
      NodeAddressesFirst(rest, k - 1);
    }
  }

  // ---------------------------------------------------------------------------
  // Entries and the whole reply

  /**
   * The slot range of one reply entry: at least three fields, an integer start
   * and end, and at least one valid node.
   */
  function EntrySlot(entry: seq<Value>): (r: Option<Slot>)
    ensures r.Some? <==>
      |entry| >= 3 && entry[0].Int? && entry[1].Int? && |NodeAddresses(entry[2..])| >= 1
    ensures r.Some? ==>
      && r.value.start == Truncate16(entry[0].i)
      && r.value.end == Truncate16(entry[1].i)
      && [r.value.master] + r.value.replicas == NodeAddresses(entry[2..])
  {
    if |entry| < 3 || !entry[0].Int? || !entry[1].Int? then None
    else
      var nodes := NodeAddresses(entry[2..]);
      if |nodes| < 1 then None
      else Some(Slot(Truncate16(entry[0].i), Truncate16(entry[1].i), nodes[0], nodes[1..]))
  }

  /** What one array entry contributes: its slot range, or nothing when it does not describe one. */
  function EntryPiece(entry: seq<Value>): seq<Slot> {
    match EntrySlot(entry)
    case Some(s) => [s]
    case None => []
  }

  /** The slots of the reply entries up to the first one that is not an array. */
  function EntriesSlots(items: seq<Value>): seq<Slot>
    decreases |items|
  {
    if |items| == 0 || !items[0].Bulk? then []
    else
      EntryPiece(items[0].items) + EntriesSlots(items[1..])
  }

  /** What a `CLUSTER SLOTS` reply describes; a reply that is not an array describes nothing. */
  function ReplySlots(reply: Value): seq<Slot> {
    if reply.Bulk? then EntriesSlots(reply.items) else []
  }

  /** The parsing loop of `get_slots`. */
  method GetSlots(reply: Value) returns (result: seq<Slot>)
    ensures result == ReplySlots(reply)
    ensures !reply.Bulk? ==> result == []
  {
    result := [];
    if !reply.Bulk? {
      return;
    }
    var items := reply.items;
    var i := 0;
    while i < |items|
      invariant 0 <= i <= |items|
      invariant ArraysThrough(items, i - 1)
      invariant result == EntriesSlots(items[..i])
    {
      if !items[i].Bulk? {
        EntriesStopAt(items, i);
        return;
      }
      EntriesStep(items, i);
      var slot := ParseEntry(items[i].items);
      i := i + 1;
      if slot.Some? {
        result := result + [slot.value];
      }
    }
    assert items[..i] == items;
  }

  /** The body of the parsing loop for one entry; `None` where the loop moves on with `continue`. */
  method ParseEntry(item: seq<Value>) returns (slot: Option<Slot>)
    ensures slot == EntrySlot(item)
  {
    if |item| < 3 {
      return None;
    }
    var start;
    match item[0] {
      case Int(n) => start := Truncate16(n);
      case _ => return None;
    }
    var end;
    match item[1] {
      case Int(n) => end := Truncate16(n);
      case _ => return None;
    }
    var nodes := NodeAddresses(item[2..]);
    if |nodes| < 1 {
      return None;
    }
    return Some(Slot(start, end, nodes[0], nodes[1..]));
  }

  /** One more array entry extends the parsed prefix by that entry's slot, if it has one. */
  lemma EntriesStep(items: seq<Value>, i: nat)
    requires i < |items| && items[i].Bulk?
    requires ArraysThrough(items, i - 1)
    ensures ArraysThrough(items, i)
    ensures EntriesSlots(items[..i + 1])
         == EntriesSlots(items[..i]) + EntryPiece(items[i].items)
  {
    var prefix := items[..i];
    assert items[..i + 1] == prefix + [items[i]];
    assert forall j :: 0 <= j < |prefix| ==> prefix[j] == items[j];
    EntriesAppend(prefix, items[i]);
  }

  lemma EntriesAppend(prefix: seq<Value>, item: Value)
    requires forall j :: 0 <= j < |prefix| ==> prefix[j].Bulk?
    requires item.Bulk?
    ensures EntriesSlots(prefix + [item]) == EntriesSlots(prefix) + EntryPiece(item.items)
  {
    var single := [item];
    EntriesConcat(prefix, single);
    assert single[0] == item && single[1..] == [];
    assert EntriesSlots(single) == EntryPiece(item.items) + EntriesSlots([]);
  }

  // ---------------------------------------------------------------------------
  // Properties of the parse

  /** Parsing stops at the first top-level element that is not an array: nothing after it is read. */
  lemma {:induction false} EntriesStopAtNonArray(items: seq<Value>, k: nat, rest: seq<Value>)
    requires k < |items| && !items[k].Bulk?
    ensures EntriesSlots(items + rest) == EntriesSlots(items[..k])
    decreases k
  {
    if k == 0 {
      assert (items + rest)[0] == items[k];
    } else {
      assert (items + rest)[0] == items[0];
      if items[0].Bulk? {
        assert (items + rest)[1..] == items[1..] + rest;
        assert items[..k][1..] == items[1..][..k - 1];
        EntriesStopAtNonArray(items[1..], k - 1, rest);
      }
    }
  }

  /** The elements of `items` up to and including index `i` are all arrays. */
  ghost predicate ArraysThrough(items: seq<Value>, i: int) {
    forall j :: 0 <= j <= i && j < |items| ==> items[j].Bulk?
  }

  /** The parse of a whole sequence ends at its first non-array element. */
  lemma EntriesStopAt(items: seq<Value>, k: nat)
    requires k < |items| && !items[k].Bulk?
    ensures EntriesSlots(items) == EntriesSlots(items[..k])
  {
    EntriesStopAtNonArray(items, k, []);
    assert items + [] == items;
  }

  /** Every parsed slot comes from an entry, with only arrays before it, that describes exactly it. */
  lemma {:induction false} EntriesSound(items: seq<Value>, s: Slot)
    requires s in EntriesSlots(items)
    ensures exists i :: 0 <= i < |items| && ArraysThrough(items, i) && EntrySlot(items[i].items) == Some(s)
    decreases |items|
  {
    assert items[0].Bulk?;
    var head := EntryPiece(items[0].items);
    if s in head {
      assert ArraysThrough(items, 0);
    } else {
      EntriesSound(items[1..], s);
      var i :| 0 <= i < |items[1..]| && ArraysThrough(items[1..], i) && EntrySlot(items[1..][i].items) == Some(s);
      ArraysThroughShift(items, i);
      assert items[i + 1] == items[1..][i];
    }
  }

  lemma ArraysThroughShift(items: seq<Value>, i: nat)
    requires 0 < |items| && items[0].Bulk? && ArraysThrough(items[1..], i)
    ensures ArraysThrough(items, i + 1)
  {
    forall j | 1 <= j <= i + 1 && j < |items| ensures items[j].Bulk? {
      assert items[j] == items[1..][j - 1];
    }
  }

  /** Entries that parse contribute their slot; entries that do not are skipped. */
  lemma {:induction false} EntriesConcat(a: seq<Value>, b: seq<Value>)
    requires forall i :: 0 <= i < |a| ==> a[i].Bulk?
    ensures EntriesSlots(a + b) == EntriesSlots(a) + EntriesSlots(b)
    decreases |a|
  {
    if |a| == 0 {
      assert a + b == b;
    } else {
      assert (a + b)[0] == a[0];
      assert (a + b)[1..] == a[1..] + b;
      EntriesConcat(a[1..], b);
    }
  }
}
