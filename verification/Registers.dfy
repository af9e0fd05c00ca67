/**
 The two register blocks of the 879-9000 module that hold its settings, the
 eleven fields of them a user may change, and the coding of those fields.

 A block is read and written whole (Modbus Application Protocol V1.1b3,
 sections 6.3 and 6.12). Words are addressed by their register number.
 */
module Registers {
  import opened Wrappers
  import opened Ipv4

  const WORD_RANGE: nat := 0x1_0000

  type Word = w: nat | w < 0x1_0000 witness 0

  const SETTINGS_ADDRESS: nat := 0x0000
  const SETTINGS_WORDS: nat := 5
  const NETWORK_ADDRESS: nat := 0x0064
  const NETWORK_WORDS: nat := 32
  const IPV4_WORDS: nat := 2
  const HOSTNAME_WORDS: nat := 16

  // ---------------------------------------------------------------- layout

  /** The settings a user may change. */
  datatype Key =
    | Timeout
    | IpAddress
    | Netmask
    | Gateway
    | Dhcp
    | DnsServer1
    | DnsServer2
    | NtpServer1
    | NtpServer2
    | Hostname
    | Ntp

  const ALL_KEYS: set<Key> := set k: Key | true

  function FieldAddress(k: Key): nat {
    match k
    case Timeout => 0x0003
    case IpAddress => 0x0064
    case Netmask => 0x0066
    case Gateway => 0x0068
    case Dhcp => 0x006A
    case DnsServer1 => 0x006B
    case DnsServer2 => 0x006D
    case NtpServer1 => 0x006F
    case NtpServer2 => 0x0071
    case Hostname => 0x0073
    case Ntp => 0x0083
  }

  function FieldCount(k: Key): nat {
    match k
    case Timeout | Dhcp | Ntp => 1
    case Hostname => HOSTNAME_WORDS
    case _ => IPV4_WORDS
  }

  predicate Covers(k: Key, address: nat) {
    FieldAddress(k) <= address < FieldAddress(k) + FieldCount(k)
  }

  /** The block a register belongs to: the one that starts last at or before it. */
  function BlockStart(address: nat): nat {
    if NETWORK_ADDRESS <= address then NETWORK_ADDRESS else SETTINGS_ADDRESS
  }

  function BlockWords(start: nat): nat {
    if start == NETWORK_ADDRESS then NETWORK_WORDS else SETTINGS_WORDS
  }

  /** The register is one of the two blocks'. */
  predicate InBlocks(address: nat) {
    address < BlockStart(address) + BlockWords(BlockStart(address))
  }

  lemma FieldsAreDisjoint(k: Key, other: Key, address: nat)
    requires Covers(k, address) && Covers(other, address)
    ensures k == other
  {
  }

  lemma FieldIsInsideItsBlock(k: Key, address: nat)
    requires Covers(k, address)
    ensures BlockStart(address) == BlockStart(FieldAddress(k)) && InBlocks(address)
  {
  }

  /** The setting a register holds, if it holds one. */
  function Owner(address: nat): (r: Option<Key>)
    ensures r.Some? ==> Covers(r.value, address)
    ensures r.None? ==> forall k: Key :: !Covers(k, address)
  {
    if address == 0x0003 then Some(Timeout)
    else if 0x0064 <= address < 0x0066 then Some(IpAddress)
    else if 0x0066 <= address < 0x0068 then Some(Netmask)
    else if 0x0068 <= address < 0x006A then Some(Gateway)
    else if address == 0x006A then Some(Dhcp)
    else if 0x006B <= address < 0x006D then Some(DnsServer1)
    else if 0x006D <= address < 0x006F then Some(DnsServer2)
    else if 0x006F <= address < 0x0071 then Some(NtpServer1)
    else if 0x0071 <= address < 0x0073 then Some(NtpServer2)
    else if 0x0073 <= address < 0x0083 then Some(Hostname)
    else if address == 0x0083 then Some(Ntp)
    else None
  }

  lemma OwnerOfField(k: Key, address: nat)
    requires Covers(k, address)
    ensures Owner(address) == Some(k)
  {
  }

  /** The fields of the network block, in the order the module keeps them. */
  const NETWORK_ORDER: seq<Key> :=
    [IpAddress, Netmask, Gateway, Dhcp, DnsServer1, DnsServer2, NtpServer1, NtpServer2, Hostname, Ntp]

  /** They fill the block from its start to its end, without a gap; the settings
      block holds one field, its fourth word. */
  lemma FieldsFillTheNetworkBlock(i: nat)
    requires i < |NETWORK_ORDER|
    ensures i == 0 ==> FieldAddress(NETWORK_ORDER[i]) == 0x64
    ensures i > 0 ==>
              var before := NETWORK_ORDER[i - 1];
              FieldAddress(NETWORK_ORDER[i]) == FieldAddress(before) + FieldCount(before)
    ensures i == |NETWORK_ORDER| - 1 ==> FieldAddress(NETWORK_ORDER[i]) + FieldCount(NETWORK_ORDER[i]) == 0x64 + 32
    ensures FieldAddress(Timeout) == 3 && FieldCount(Timeout) == 1
  {
  }

  // ----------------------------------------------------------------- codec

  /** A setting as the module reports it and the page submits it. */
  datatype Value = Number(n: int) | Switch(on: bool) | Ip(address: Address) | Name(text: string)

  type Changes = map<Key, Value>

  predicate IsText(text: string) {
    |text| <= 2 * HOSTNAME_WORDS && forall i :: 0 <= i < |text| ==> 0 < text[i] as int < 256
  }

  /** The value is one the field can hold. */
  predicate Writable(k: Key, v: Value) {
    match k
    case Timeout => v.Number? && 0 <= v.n < WORD_RANGE
    case Dhcp | Ntp => v.Switch?
    case Hostname => v.Name? && IsText(v.text)
    case _ => v.Ip?
  }

  predicate AllWritable(changes: Changes) {
    forall k :: k in changes ==> Writable(k, changes[k])
  }

  function ByteAt(text: string, i: nat): (b: nat)
    requires IsText(text)
    ensures b < 256
  {
    if i < |text| then text[i] as int else 0
  }

  /** One byte per character, two bytes per word, zeros to the end. */
  function EncodeName(text: string): (words: seq<Word>)
    requires IsText(text)
    ensures |words| == HOSTNAME_WORDS
  {
    seq(HOSTNAME_WORDS, i requires 0 <= i < HOSTNAME_WORDS => 256 * ByteAt(text, 2 * i) + ByteAt(text, 2 * i + 1))
  }

  function Encode(k: Key, v: Value): (words: seq<Word>)
    requires Writable(k, v)
    ensures |words| == FieldCount(k)
  {
    match v
    case Ip(address) => [address / WORD_RANGE, address % WORD_RANGE]
    case Name(text) => EncodeName(text)
    case Number(n) => [n]
    case Switch(on) => [if on then 1 else 0]
  }

  /** Byte `i` of the words, the high byte of each first. */
  function ByteOf(words: seq<Word>, i: nat): (b: nat)
    requires |words| == HOSTNAME_WORDS && i < 2 * HOSTNAME_WORDS
    ensures b < 256
  {
    if i % 2 == 0 then words[i / 2] / 256 else words[i / 2] % 256
  }

  /** The text of the words' bytes from byte `i` to the first zero byte. */
  function NameFrom(words: seq<Word>, i: nat): (text: string)
    requires |words| == HOSTNAME_WORDS && i <= 2 * HOSTNAME_WORDS
    ensures |text| <= 2 * HOSTNAME_WORDS - i
    ensures forall j :: 0 <= j < |text| ==> 0 < text[j] as int < 256
    decreases 2 * HOSTNAME_WORDS - i
  {
    if i == 2 * HOSTNAME_WORDS then ""
    else
      if ByteOf(words, i) == 0 then "" else [ByteOf(words, i) as char] + NameFrom(words, i + 1)
  }

  function Decode(k: Key, words: seq<Word>): (v: Value)
    requires |words| == FieldCount(k)
    ensures Writable(k, v)
  {
    match k
    case Timeout => Number(words[0])
    case Dhcp | Ntp => Switch(words[0] != 0)
    case Hostname => Name(NameFrom(words, 0))
    case _ => Ip(words[0] * WORD_RANGE + words[1])
  }

  lemma EncodedByte(text: string, i: nat)
    requires IsText(text) && i < 2 * HOSTNAME_WORDS
    ensures ByteOf(EncodeName(text), i) == ByteAt(text, i)
  {
    var half := i / 2;
    assert EncodeName(text)[half] == 256 * ByteAt(text, 2 * half) + ByteAt(text, 2 * half + 1);
  }

  lemma {:induction false} NameFromEncoded(text: string, i: nat)
    requires IsText(text) && i <= |text|
    ensures NameFrom(EncodeName(text), i) == text[i..]
    decreases |text| - i
  {
    if i < 2 * HOSTNAME_WORDS {
      EncodedByte(text, i);
    }
    if i < |text| {
      NameFromEncoded(text, i + 1);
      assert text[i..] == [text[i]] + text[i + 1..];
    }
  }

  /** What is written reads back. */
  lemma DecodeEncode(k: Key, v: Value)
    requires Writable(k, v)
    ensures Decode(k, Encode(k, v)) == v
  {
    if k == Hostname {
      NameFromEncoded(v.text, 0);
    }
  }

  // ---------------------------------------------------------------- blocks

  datatype RawBlocks = Blocks(settings: seq<Word>, network: seq<Word>)

  /** The contents of both blocks, each of its fixed length. */
  type Blocks = b: RawBlocks | |b.settings| == SETTINGS_WORDS && |b.network| == NETWORK_WORDS
    witness Blocks([0, 0, 0, 0, 0], seq(NETWORK_WORDS, _ => 0))

  function WordAt(b: Blocks, address: nat): Word
    requires InBlocks(address)
  {
    if NETWORK_ADDRESS <= address then b.network[address - NETWORK_ADDRESS] else b.settings[address]
  }

  lemma SameWords(b: Blocks, c: Blocks)
    requires forall a :: InBlocks(a) ==> WordAt(b, a) == WordAt(c, a)
    ensures b == c
  {
    forall i | 0 <= i < SETTINGS_WORDS ensures b.settings[i] == c.settings[i] {
      assert WordAt(b, i) == WordAt(c, i);
    }
    forall i | 0 <= i < NETWORK_WORDS ensures b.network[i] == c.network[i] {
      assert WordAt(b, NETWORK_ADDRESS + i) == WordAt(c, NETWORK_ADDRESS + i);
    }
  }

  function FieldWords(b: Blocks, k: Key): (words: seq<Word>)
    ensures |words| == FieldCount(k)
  {
    var start := FieldAddress(k) - BlockStart(FieldAddress(k));
    if BlockStart(FieldAddress(k)) == NETWORK_ADDRESS then b.network[start..start + FieldCount(k)]
    else b.settings[start..start + FieldCount(k)]
  }

  lemma FieldWordAt(b: Blocks, k: Key, i: nat)
    requires i < FieldCount(k)
    ensures InBlocks(FieldAddress(k) + i) && FieldWords(b, k)[i] == WordAt(b, FieldAddress(k) + i)
  {
  }

  function ReadValue(b: Blocks, k: Key): Value {
    Decode(k, FieldWords(b, k))
  }

  /** What a read of both blocks reports for the settings a user may change. */
  function ReadValues(b: Blocks): (r: Changes)
    ensures r.Keys == ALL_KEYS && AllWritable(r)
    ensures forall k: Key :: k in r && r[k] == ReadValue(b, k)
  {
    map k | k in ALL_KEYS :: ReadValue(b, k)
  }

  /** The words that hold no setting a user may change agree. */
  ghost predicate SameRest(b: Blocks, c: Blocks) {
    forall a :: InBlocks(a) && Owner(a).None? ==> WordAt(b, a) == WordAt(c, a)
  }

  // --------------------------------------------------------------- patches

  /** The word `address` holds once the fields in `changes` are replaced. */
  function PatchedWord(b: Blocks, changes: Changes, address: nat): Word
    requires AllWritable(changes) && InBlocks(address)
  {
    match Owner(address)
    case Some(k) =>
      if k in changes then Encode(k, changes[k])[address - FieldAddress(k)] else WordAt(b, address)
    case None => WordAt(b, address)
  }

  function PatchedBlock(b: Blocks, changes: Changes, start: nat): (words: seq<Word>)
    requires AllWritable(changes) && (start == SETTINGS_ADDRESS || start == NETWORK_ADDRESS)
    ensures |words| == BlockWords(start)
    ensures forall i :: 0 <= i < |words| ==> words[i] == PatchedWord(b, changes, start + i)
  {
    seq<Word>(BlockWords(start), i requires 0 <= i < BlockWords(start) => PatchedWord(b, changes, start + i))
  }

  /** Both blocks with the fields in `changes` replaced. */
  function Patch(b: Blocks, changes: Changes): Blocks
    requires AllWritable(changes)
  {
    Blocks(PatchedBlock(b, changes, SETTINGS_ADDRESS), PatchedBlock(b, changes, NETWORK_ADDRESS))
  }

  lemma PatchAt(b: Blocks, changes: Changes, address: nat)
    requires AllWritable(changes) && InBlocks(address)
    ensures WordAt(Patch(b, changes), address) == PatchedWord(b, changes, address)
  {
  }

  /** A patch replaces its own fields and leaves every other field as it was. */
  lemma PatchField(b: Blocks, changes: Changes, k: Key)
    requires AllWritable(changes)
    ensures FieldWords(Patch(b, changes), k) == if k in changes then Encode(k, changes[k]) else FieldWords(b, k)
  {
    hide Encode, Patch, FieldWords, WordAt;
    var expected := if k in changes then Encode(k, changes[k]) else FieldWords(b, k);
    forall i | 0 <= i < FieldCount(k) ensures FieldWords(Patch(b, changes), k)[i] == expected[i] {
      FieldWordAt(Patch(b, changes), k, i);
      FieldWordAt(b, k, i);
      OwnerOfField(k, FieldAddress(k) + i);
      PatchAt(b, changes, FieldAddress(k) + i);
    }
  }

  lemma ReadPatched(b: Blocks, changes: Changes, k: Key)
    requires AllWritable(changes)
    ensures ReadValue(Patch(b, changes), k) == if k in changes then changes[k] else ReadValue(b, k)
  {
    PatchField(b, changes, k);
    if k in changes {
      DecodeEncode(k, changes[k]);
    }
  }

  // ------------------------------------------ what the registers themselves hold

  predicate IsAddressField(k: Key) {
    k != Timeout && k != Dhcp && k != Ntp && k != Hostname
  }

  lemma PatchedWords(b: Blocks, changes: Changes, k: Key, i: nat)
    requires AllWritable(changes) && k in changes && i < FieldCount(k)
    ensures InBlocks(FieldAddress(k) + i) && WordAt(Patch(b, changes), FieldAddress(k) + i) == Encode(k, changes[k])[i]
  {
    PatchField(b, changes, k);
    FieldWordAt(Patch(b, changes), k, i);
  }

  /** The first register of an address holds its high half, and the second its low
      half; a number is its register, and a switch 1 or 0. */
  lemma WrittenRegisters(b: Blocks, changes: Changes, k: Key)
    requires AllWritable(changes) && k in changes && k != Hostname
    ensures InBlocks(FieldAddress(k)) && (IsAddressField(k) ==> InBlocks(FieldAddress(k) + 1) && changes[k].Ip?)
    ensures var after := Patch(b, changes);
            && (IsAddressField(k) ==>
                  WordAt(after, FieldAddress(k)) * 0x1_0000 + WordAt(after, FieldAddress(k) + 1) == changes[k].address)
            && (k == Timeout ==> changes[k] == Number(WordAt(after, FieldAddress(k))))
            && (k == Dhcp || k == Ntp ==> WordAt(after, FieldAddress(k)) == if changes[k] == Switch(true) then 1 else 0)
  {
    PatchedWords(b, changes, k, 0);
    if IsAddressField(k) {
      PatchedWords(b, changes, k, 1);
    }
  }

  /** And so they are read; any word but 0 switches on. */
  lemma ReadRegisters(b: Blocks, k: Key)
    requires k != Hostname
    ensures InBlocks(FieldAddress(k)) && (IsAddressField(k) ==> InBlocks(FieldAddress(k) + 1))
    ensures IsAddressField(k) ==>
              var a := WordAt(b, FieldAddress(k)) * 0x1_0000 + WordAt(b, FieldAddress(k) + 1);
              a < 0x1_0000_0000 && ReadValue(b, k) == Ip(a)
    ensures k == Timeout ==> ReadValue(b, k) == Number(WordAt(b, FieldAddress(k)))
    ensures k == Dhcp || k == Ntp ==> ReadValue(b, k) == Switch(WordAt(b, FieldAddress(k)) != 0)
  {
    FieldWordAt(b, k, 0);
    if IsAddressField(k) {
      FieldWordAt(b, k, 1);
    }
  }

  /** Of a host name's characters, two to a register, the first is the high byte;
      what the name leaves of the field is zero. */
  lemma WrittenName(b: Blocks, changes: Changes, i: nat)
    requires AllWritable(changes) && Hostname in changes && i < 16
    ensures InBlocks(0x73 + i) && changes[Hostname].Name?
    ensures var text, word := changes[Hostname].text, WordAt(Patch(b, changes), 0x73 + i);
            && word / 256 == (if 2 * i < |text| then text[2 * i] as int else 0)
            && word % 256 == (if 2 * i + 1 < |text| then text[2 * i + 1] as int else 0)
  {
    PatchedWords(b, changes, Hostname, i);
    EncodedByte(changes[Hostname].text, 2 * i);
    EncodedByte(changes[Hostname].text, 2 * i + 1);
  }

  /** Byte `j` of the host name's registers. */
  function RegisterByte(b: Blocks, j: nat): nat
    requires j < 32
  {
    if j % 2 == 0 then WordAt(b, 0x73 + j / 2) / 256 else WordAt(b, 0x73 + j / 2) % 256
  }

  lemma ByteIsRegister(b: Blocks, i: nat)
    requires i < 32
    ensures ByteOf(FieldWords(b, Hostname), i) == RegisterByte(b, i)
  {
    FieldWordAt(b, Hostname, i / 2);
  }

  lemma NameStep(words: seq<Word>, i: nat)
    requires |words| == HOSTNAME_WORDS && i < 2 * HOSTNAME_WORDS
    ensures ByteOf(words, i) == 0 ==> NameFrom(words, i) == ""
    ensures ByteOf(words, i) != 0 ==>
              && |NameFrom(words, i)| == 1 + |NameFrom(words, i + 1)|
              && NameFrom(words, i)[0] as int == ByteOf(words, i)
              && NameFrom(words, i)[1..] == NameFrom(words, i + 1)
  {
    hide ByteOf;
  }

  /** `text` is what the bytes from `i` on spell, up to the first zero. */
  ghost predicate Spells(b: Blocks, i: nat, text: string) {
    && i + |text| <= 32
    && (forall j :: 0 <= j < |text| ==> text[j] as int == RegisterByte(b, i + j))
    && (i + |text| < 32 ==> RegisterByte(b, i + |text|) == 0)
  }

  lemma SpellsMore(b: Blocks, i: nat, text: string)
    requires text != "" && i < 32 && text[0] as int == RegisterByte(b, i) && Spells(b, i + 1, text[1..])
    ensures Spells(b, i, text)
  {
    hide RegisterByte;
    forall j | 0 <= j < |text| ensures text[j] as int == RegisterByte(b, i + j) {
      if j > 0 {
        assert text[1..][j - 1] as int == RegisterByte(b, i + 1 + (j - 1));
      }
    }
  }

  lemma {:induction false} NameFromBytes(b: Blocks, i: nat)
    requires i <= 32
    ensures Spells(b, i, NameFrom(FieldWords(b, Hostname), i))
    decreases 32 - i
  {
    var text := NameFrom(FieldWords(b, Hostname), i);
    if i < 32 {
      ByteIsRegister(b, i);
      NameStep(FieldWords(b, Hostname), i);
      NameFromBytes(b, i + 1);
      hide Spells, NameFrom, ByteOf, FieldWords, RegisterByte;
      if text != "" {
        SpellsMore(b, i, text);
      } else {
        NothingSpelt(b, i);
      }
    }
  }

  lemma NothingSpelt(b: Blocks, i: nat)
    requires i < 32 && RegisterByte(b, i) == 0
    ensures Spells(b, i, "")
  {
  }

  /** A name is read up to the first zero byte. */
  lemma ReadName(b: Blocks)
    ensures ReadValue(b, Hostname).Name?
    ensures var text := ReadValue(b, Hostname).text;
            Spells(b, 0, text) && forall j :: 0 <= j < |text| ==> text[j] as int != 0
  {
    NameFromBytes(b, 0);
    hide NameFrom, FieldWords, RegisterByte;
  }

  /** Words outside the fields stay as they were. */
  lemma PatchKeepsRest(b: Blocks, changes: Changes)
    requires AllWritable(changes)
    ensures SameRest(Patch(b, changes), b)
  {
    forall a | InBlocks(a) && Owner(a).None? ensures WordAt(Patch(b, changes), a) == WordAt(b, a) {
      PatchAt(b, changes, a);
    }
  }

  /** Reading back after a patch: the new value of every field in it, the old
      value of every other. */
  lemma PutGet(b: Blocks, changes: Changes)
    requires AllWritable(changes)
    ensures ReadValues(Patch(b, changes)) == ReadValues(b) + changes
  {
    forall k: Key ensures ReadValue(Patch(b, changes), k) == if k in changes then changes[k] else ReadValue(b, k) {
      ReadPatched(b, changes, k);
    }
    OverlaidReading(b, Patch(b, changes), changes);
  }

  lemma OverlaidReading(b: Blocks, after: Blocks, changes: Changes)
    requires forall k: Key :: ReadValue(after, k) == if k in changes then changes[k] else ReadValue(b, k)
    ensures ReadValues(after) == ReadValues(b) + changes
  {
    var left, right := ReadValues(after), ReadValues(b) + changes;
    assert left.Keys == ALL_KEYS;
    assert right.Keys == ALL_KEYS;
    forall k | k in ALL_KEYS ensures left[k] == right[k] {
      assert left[k] == ReadValue(after, k);
    }
  }

  /** Two patches in turn are one patch, the later one winning. */
  lemma PatchTwice(b: Blocks, first: Changes, second: Changes)
    requires AllWritable(first) && AllWritable(second)
    ensures AllWritable(first + second)
    ensures Patch(Patch(b, first), second) == Patch(b, first + second)
  {
    var once := Patch(b, first);
    forall a | InBlocks(a) ensures WordAt(Patch(once, second), a) == WordAt(Patch(b, first + second), a) {
      PatchAt(once, second, a);
      PatchAt(b, first, a);
      PatchAt(b, first + second, a);
    }
    SameWords(Patch(once, second), Patch(b, first + second));
  }

  /** Patches with no field in common may be done in either order. */
  lemma PatchesCommute(b: Blocks, first: Changes, second: Changes)
    requires AllWritable(first) && AllWritable(second) && first.Keys !! second.Keys
    ensures Patch(Patch(b, first), second) == Patch(Patch(b, second), first)
  {
    PatchTwice(b, first, second);
    PatchTwice(b, second, first);
    assert first + second == second + first;
  }

  lemma PatchNothing(b: Blocks)
    ensures Patch(b, map[]) == b
  {
    forall a | InBlocks(a) ensures WordAt(Patch(b, map[]), a) == WordAt(b, a) {
      PatchAt(b, map[], a);
    }
    SameWords(Patch(b, map[]), b);
  }

  /** A patch of every field depends on the rest of the words alone. */
  lemma FullPatch(b: Blocks, c: Blocks, changes: Changes)
    requires AllWritable(changes) && changes.Keys == ALL_KEYS
    requires SameRest(b, c)
    ensures Patch(b, changes) == Patch(c, changes)
  {
    forall a | InBlocks(a) ensures WordAt(Patch(b, changes), a) == WordAt(Patch(c, changes), a) {
      PatchAt(b, changes, a);
      PatchAt(c, changes, a);
    }
    SameWords(Patch(b, changes), Patch(c, changes));
  }

  /** The changes of one block or of both. */
  function Within(changes: Changes, settings: bool, network: bool): Changes {
    map k | k in changes && (if k == Timeout then settings else network) :: changes[k]
  }

  /** A block of the patched words in place of the old one is the patch of the
      fields that lie in it. */
  lemma PatchWithin(b: Blocks, changes: Changes, settings: bool, network: bool)
    requires AllWritable(changes)
    ensures var patched := Patch(b, changes);
            Patch(b, Within(changes, settings, network)) ==
            Blocks(if settings then patched.settings else b.settings, if network then patched.network else b.network)
  {
    var patched := Patch(b, changes);
    var some := Within(changes, settings, network);
    var mixed: Blocks := Blocks(if settings then patched.settings else b.settings, if network then patched.network else b.network);
    forall a | InBlocks(a) ensures WordAt(Patch(b, some), a) == WordAt(mixed, a) {
      PatchAt(b, some, a);
      PatchAt(b, changes, a);
    }
    SameWords(Patch(b, some), mixed);
  }
}
