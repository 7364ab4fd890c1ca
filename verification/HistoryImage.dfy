// The persistent image of the history ring: header, records oldest first, padding, CRC-32.
module HistoryImage {
  import opened Words
  import opened Crc
  import opened HistoryRing

  function ImageLength(capacity: nat): nat {
    12 + 25 * capacity + 4
  }

  function Flatten(rs: seq<Record>): (s: seq<byte>)
    ensures |s| == 25 * |rs|
  {
    if rs == [] then [] else rs[0] + Flatten(rs[1..])
  }

  function Zeros(n: nat): (s: seq<byte>)
    ensures |s| == n
  {
    seq(n, _ => 0)
  }

  function Header(generation: u32, count: u16): (s: seq<byte>)
    ensures |s| == 12
  {
    [0x4d, 0x42, 0x48, 1] + ToLe(generation, 4) + ToLe(count, 2) + [0, 0]
  }

  function ImageBody(rs: seq<Record>, generation: u32, capacity: nat): (s: seq<byte>)
    requires |rs| <= capacity < TWO_16
    ensures |s| == ImageLength(capacity) - 4
  {
    Header(generation, |rs|) + Flatten(rs) + Zeros(25 * (capacity - |rs|))
  }

  function Image(rs: seq<Record>, generation: u32, capacity: nat): (s: seq<byte>)
    requires |rs| <= capacity < TWO_16
    ensures |s| == ImageLength(capacity)
  {
    ImageBody(rs, generation, capacity) + ToLe(Crc32Of(ImageBody(rs, generation, capacity)), 4)
  }

  // Every record the firmware stores begins with these two bytes.
  predicate Stamped(r: Record) {
    r[0] == 0x21 && r[1] == 0xce
  }

  predicate AllStamped(rs: seq<Record>) {
    forall k :: 0 <= k < |rs| ==> Stamped(rs[k])
  }

  function RecordAt(s: seq<byte>, i: nat): Record
    requires 12 + 25 * i + 25 <= |s|
  {
    s[12 + 25 * i..12 + 25 * i + 25]
  }

  // Records i.. of an image, unless one of them lacks its stamp.
  function RecordsFrom(s: seq<byte>, i: nat, count: nat): Option<seq<Record>>
    requires i <= count && 12 + 25 * count <= |s|
    decreases count - i
  {
    if i == count then Some([])
    else if !Stamped(RecordAt(s, i)) then None
    else match RecordsFrom(s, i + 1, count)
      case None => None
      case Some(rest) => Some([RecordAt(s, i)] + rest)
  }

  predicate Sealed(s: seq<byte>, capacity: nat) {
    |s| == ImageLength(capacity) && s[0] == 0x4d && s[1] == 0x42 && s[2] == 0x48 && s[3] == 1 &&
    Crc32Of(s[..|s| - 4]) == Le32(s[|s| - 4], s[|s| - 3], s[|s| - 2], s[|s| - 1])
  }

  // What a stored image stands for: its records and its generation, or nothing.
  function DecodeImage(s: seq<byte>, capacity: nat): Option<(seq<Record>, u32)> {
    if !Sealed(s, capacity) then None
    else
      var count := Le16(s[8], s[9]);
      if count > capacity then None
      else match RecordsFrom(s, 0, count)
        case None => None
        case Some(rs) => Some((rs, Le32(s[4], s[5], s[6], s[7])))
  }

  // ---- round trip ----

  lemma {:induction false} FlattenAt(rs: seq<Record>, i: nat)
    requires i < |rs|
    ensures Flatten(rs)[25 * i..25 * i + 25] == rs[i]
    decreases i
  {
    if i == 0 {
    } else {
      FlattenAt(rs[1..], i - 1);
      assert Flatten(rs)[25..] == Flatten(rs[1..]);
      assert Flatten(rs)[25 * i..25 * i + 25] == Flatten(rs)[25..][25 * (i - 1)..25 * (i - 1) + 25];
    }
  }

  lemma {:induction false} RecordsReadBack(s: seq<byte>, rs: seq<Record>, i: nat)
    requires i <= |rs| && 12 + 25 * |rs| <= |s| && s[12..12 + 25 * |rs|] == Flatten(rs)
    ensures RecordsFrom(s, i, |rs|) == if AllStamped(rs[i..]) then Some(rs[i..]) else None
    decreases |rs| - i
  {
    if i == |rs| {
    } else {
      FlattenAt(rs, i);
      SliceOfSlice(s, 12, 25 * |rs|, 25 * i, 25);
      RecordsReadBack(s, rs, i + 1);
      assert rs[i..] == [rs[i]] + rs[i + 1..];
      var here, tail := rs[i..], rs[i + 1..];
      if AllStamped(here) {
        forall k | 0 <= k < |tail|
          ensures Stamped(tail[k])
        {
          assert tail[k] == here[k + 1];
        }
      } else if Stamped(rs[i]) {
        var k :| 0 <= k < |here| && !Stamped(here[k]);
        assert tail[k - 1] == here[k];
      }
    }
  }

  lemma TrailerReadsBack(body: seq<byte>)
    ensures var s := body + ToLe(Crc32Of(body), 4);
            s[..|s| - 4] == body && Le32(s[|s| - 4], s[|s| - 3], s[|s| - 2], s[|s| - 1]) == Crc32Of(body)
  {
    var crc := Crc32Of(body);
    var s := body + ToLe(crc, 4);
    Crc32Range(body);
    Pow256Values();
    FromLeToLe(crc, 4);
    FromLeOf4(ToLe(crc, 4));
    assert s[|s| - 4..] == ToLe(crc, 4);
  }

  lemma HeaderReadsBack(generation: u32, count: u16, rest: seq<byte>)
    ensures var s := Header(generation, count) + rest;
            s[0] == 0x4d && s[1] == 0x42 && s[2] == 0x48 && s[3] == 1 &&
            Le32(s[4], s[5], s[6], s[7]) == generation && Le16(s[8], s[9]) == count
  {
    hide ToLe, FromLe;
    var s := Header(generation, count) + rest;
    Pow256Values();
    FromLeToLe(generation, 4); FromLeToLe(count, 2);
    FromLeOf4(ToLe(generation, 4)); FromLeOf2(ToLe(count, 2));
    assert s[4..8] == ToLe(generation, 4) && s[8..10] == ToLe(count, 2);
    assert s[4] == s[4..8][0] && s[5] == s[4..8][1] && s[6] == s[4..8][2] && s[7] == s[4..8][3];
    assert s[8] == s[8..10][0] && s[9] == s[8..10][1];
  }

  // Main result: the image of a ring decodes to its records and generation exactly when every
  // record is stamped, and to nothing otherwise.
  lemma ImageRoundTrip(rs: seq<Record>, generation: u32, capacity: nat)
    requires |rs| <= capacity < TWO_16
    ensures DecodeImage(Image(rs, generation, capacity), capacity)
         == if AllStamped(rs) then Some((rs, generation)) else None
  {
    hide Crc32Of, Header, ToLe, Flatten, RecordsFrom, AllStamped, Zeros;
    var s, body := Image(rs, generation, capacity), ImageBody(rs, generation, capacity);
    var rest := Flatten(rs) + (Zeros(25 * (capacity - |rs|)) + ToLe(Crc32Of(body), 4));
    ImageParts(Header(generation, |rs|), Flatten(rs), Zeros(25 * (capacity - |rs|)), ToLe(Crc32Of(body), 4));
    HeaderReadsBack(generation, |rs|, rest);
    TrailerReadsBack(body);
    RecordsReadBack(s, rs, 0);
    assert rs[0..] == rs;
  }

  lemma ImageParts(header: seq<byte>, records: seq<byte>, padding: seq<byte>, trailer: seq<byte>)
    ensures var s := (header + records + padding) + trailer;
            s == header + (records + (padding + trailer)) && s[|header|..|header| + |records|] == records
  {
  }

  // Main result: damage to at most four neighbouring bytes of an accepted image, its CRC
  // included, makes it unacceptable.
  lemma DamagedImageRejected(s: seq<byte>, damaged: seq<byte>, at: nat, size: nat, capacity: nat)
    requires DecodeImage(s, capacity).Some?
    requires DifferOnlyIn(s, damaged, at, size) && size <= 4 && s != damaged
    ensures DecodeImage(damaged, capacity) == None
  {
    hide Crc32Of, RecordsFrom, Register, Xor, FromLe, Steps;
    var n := |s| - 4;
    if Sealed(damaged, capacity) {
      SealMeansResidue(s, capacity);
      SealMeansResidue(damaged, capacity);
      FirmwarePolynomials();
      assert s == s[..n] + s[n..] && damaged == damaged[..n] + damaged[n..];
      BurstBreaksCodeword(POLY_32, 32, INIT_32, 0xffffffff, s[..n], s[n..], damaged[..n], damaged[n..], at, size);
    }
  }

  lemma SealMeansResidue(s: seq<byte>, capacity: nat)
    requires Sealed(s, capacity)
    ensures FromLe(s[|s| - 4..]) == Xor(Register(POLY_32, INIT_32, s[..|s| - 4]), 0xffffffff)
  {
    FromLeOf4(s[|s| - 4..]);
  }

  // ---- the codec ----

  lemma LowByteFirst(done: seq<byte>, value: nat, n: nat)
    requires n > 0
    ensures done + ToLe(value, n) == (done + [value % 256]) + ToLe(value / 256, n - 1)
  {
    assert ToLe(value, n) == [value % 256] + ToLe(value / 256, n - 1);
  }

  method PutByte(output: array<byte>, at: nat, b: byte)
    requires at < output.Length
    modifies output
    ensures output[..at + 1] == old(output[..at]) + [b] && output[at + 1..] == old(output[at + 1..])
  {
    output[at] := b;
  }

  lemma DropsOn<T>(s: seq<T>, t: seq<T>, at: nat, n: nat)
    requires at + n <= |s| == |t| && s[at..] == t[at..]
    ensures s[at + n..] == t[at + n..]
  {
    assert s[at..][n..] == s[at + n..] && t[at..][n..] == t[at + n..];
  }

  method WriteLe(value: nat, output: array<byte>, at: nat, width: nat)
    requires at + width <= output.Length
    modifies output
    ensures output[..] == old(output[..at]) + ToLe(value, width) + old(output[at + width..])
  {
    hide ToLe;
    var rest := value;
    ghost var done: seq<byte> := [];
    assert done + ToLe(rest, width) == ToLe(value, width);
    for i := 0 to width
      invariant |done| == i && done + ToLe(rest, width - i) == ToLe(value, width)
      invariant output[..at + i] == old(output[..at]) + done
      invariant output[at + i..] == old(output[at + i..])
    {
      LowByteFirst(done, rest, width - i);
      DropsOn(output[..], old(output[..]), at + i, 1);
      PutByte(output, at + i, rest % 256);
      done := done + [rest % 256];
      rest := rest / 256;
    }
    assert done + ToLe(rest, 0) == done;
    assert output[..] == output[..at + width] + output[at + width..];
  }

  lemma FlattenAppend(rs: seq<Record>, r: Record)
    ensures Flatten(rs + [r]) == Flatten(rs) + r
  {
    if rs == [] {
      assert [r][1..] == [];
      assert Flatten([r]) == r + Flatten([r][1..]);
    } else {
      FlattenAppend(rs[1..], r);
      assert (rs + [r])[1..] == rs[1..] + [r];
    }
  }

  method PutRecord(output: array<byte>, at: nat, record: Record)
    requires at + RECORD_LENGTH <= output.Length
    modifies output
    ensures output[..at + RECORD_LENGTH] == old(output[..at]) + record
    ensures output[at + RECORD_LENGTH..] == old(output[at + RECORD_LENGTH..])
  {
    forall k | 0 <= k < RECORD_LENGTH { output[at + k] := record[k]; }
  }

  lemma OneMoreRecord(rs: seq<Record>, i: nat)
    requires i < |rs|
    ensures Flatten(rs[..i]) + rs[i] == Flatten(rs[..i + 1])
  {
    hide Flatten;
    FlattenAppend(rs[..i], rs[i]);
    assert rs[..i + 1] == rs[..i] + [rs[i]];
  }

  lemma NextRecord(head: seq<byte>, rs: seq<Record>, i: nat)
    requires i < |rs|
    ensures (head + Flatten(rs[..i])) + rs[i] == head + Flatten(rs[..i + 1])
  {
    hide Flatten;
    OneMoreRecord(rs, i);
  }

  // The record loop of the encoder: records oldest first from offset 12 on.
  method PutRecords(ring: Ring, output: array<byte>)
    requires ring.Valid() && output.Length >= ImageLength(ring.capacity) && ring.size <= ring.capacity
    modifies output
    ensures output[..] == old(output[..12]) + Flatten(ring.Contents()) + old(output[12 + 25 * ring.size..])
  {
    hide Flatten;
    ghost var rs, head := ring.Contents(), output[..12];
    assert head + Flatten(rs[..0]) == head;
    for i := 0 to ring.size
      invariant output[..12 + 25 * i] == head + Flatten(rs[..i])
      invariant output[12 + 25 * i..] == old(output[12 + 25 * i..])
    {
      var oldest := ring.Oldest(i);
      NextRecord(head, rs, i);
      DropsOn(output[..], old(output[..]), 12 + 25 * i, RECORD_LENGTH);
      PutRecord(output, 12 + 25 * i, oldest.value);
    }
    assert rs[..ring.size] == rs;
    assert output[..] == output[..12 + 25 * ring.size] + output[12 + 25 * ring.size..];
  }

  method PutHeader(generation: u32, count: u16, output: array<byte>, imageLength: nat)
    requires 12 <= imageLength <= output.Length
    modifies output
    ensures output[..] == Header(generation, count) + Zeros(imageLength - 12) + old(output[imageLength..])
  {
    forall i | 0 <= i < imageLength { output[i] := 0; }
    output[0], output[1], output[2], output[3] := 0x4d, 0x42, 0x48, 1;
    ghost var rest := [0, 0] + Zeros(imageLength - 12) + old(output[imageLength..]);
    assert output[10..] == rest;
    hide ToLe;
    WriteLe(generation, output, 4, 4);
    assert output[..8] == [0x4d, 0x42, 0x48, 1] + ToLe(generation, 4);
    assert output[10..] == rest;
    WriteLe(count, output, 8, 2);
    assert output[..] == output[..8] + ToLe(count, 2) + rest;
  }

  // Records written over the zeros behind the header leave an image body, room for the checksum,
  // and the rest.
  lemma BodyIsReady(header: seq<byte>, flat: seq<byte>, padding: nat, rest: seq<byte>)
    ensures var cleared := header + Zeros(|flat| + padding + 4) + rest;
            cleared[..|header|] + flat + cleared[|header| + |flat|..]
            == (header + flat + Zeros(padding)) + (Zeros(4) + rest)
  {
    BehindHeader(header, |flat|, padding, rest);
    hide Zeros;
    Reassociate(header + flat, Zeros(padding), Zeros(4) + rest);
  }

  lemma BehindHeader(header: seq<byte>, records: nat, padding: nat, rest: seq<byte>)
    ensures var cleared := header + Zeros(records + padding + 4) + rest;
            cleared[..|header|] == header && cleared[|header| + records..] == Zeros(padding) + (Zeros(4) + rest)
  {
  }

  lemma Reassociate(a: seq<byte>, b: seq<byte>, c: seq<byte>)
    ensures a + (b + c) == (a + b) + c
  {
  }

  lemma BodyThenRest(body: seq<byte>, gap: seq<byte>, rest: seq<byte>)
    ensures var image := body + (gap + rest);
            image[..|body|] == body && image[|body| + |gap|..] == rest
  {
  }

  // The checksum of the first `length` bytes goes right behind them.
  method Seal(output: array<byte>, length: nat)
    requires length + 4 <= output.Length
    modifies output
    ensures output[..] == old(output[..length]) + ToLe(Crc32Of(old(output[..length])), 4) + old(output[length + 4..])
  {
    hide Crc32Of, ToLe;
    var crc := Crc32(output, length);
    WriteLe(crc, output, length, 4);
  }

  // Header, records and padding, with room left for the checksum.
  method PutBody(ring: Ring, generation: u32, output: array<byte>)
    requires ring.Valid() && ring.capacity < TWO_16 && output.Length >= ImageLength(ring.capacity)
    modifies output
    ensures output[..] == ImageBody(ring.Contents(), generation, ring.capacity)
                          + (Zeros(4) + old(output[ImageLength(ring.capacity)..]))
  {
    hide Header, Flatten, Zeros;
    var imageLength := ImageLength(ring.capacity);
    ghost var rest := output[imageLength..];
    PutHeader(generation, ring.size, output, imageLength);
    ghost var rs, cleared := ring.Contents(), output[..];
    BodyIsReady(Header(generation, ring.size), Flatten(rs), 25 * (ring.capacity - ring.size), rest);
    assert output[..12] == cleared[..12] && output[12 + 25 * ring.size..] == cleared[12 + 25 * ring.size..];
    PutRecords(ring, output);
  }

  method Encode(ring: Ring, generation: u32, output: array<byte>) returns (ok: bool, written: nat)
    requires ring.Valid() && ring.capacity < TWO_16
    modifies output
    ensures ok == (output.Length >= ImageLength(ring.capacity))
    ensures ok ==> written == ImageLength(ring.capacity) &&
                   output[..] == Image(ring.Contents(), generation, ring.capacity) + old(output[written..])
    ensures !ok ==> written == 0 && output[..] == old(output[..])
  {
    hide Crc32Of, ImageBody, ToLe, Zeros;
    var imageLength := ImageLength(ring.capacity);
    if output.Length < imageLength { return false, 0; }
    ghost var body, rest := ImageBody(ring.Contents(), generation, ring.capacity), output[imageLength..];
    PutBody(ring, generation, output);
    BodyThenRest(body, Zeros(4), rest);
    ghost var ready := output[..];
    assert output[..imageLength - 4] == ready[..imageLength - 4] && output[imageLength..] == ready[imageLength..];
    Seal(output, imageLength - 4);
    return true, imageLength;
  }

  method ChecksumHolds(input: seq<byte>) returns (ok: bool)
    requires |input| >= 4
    ensures ok == (Crc32Of(input[..|input| - 4])
                   == Le32(input[|input| - 4], input[|input| - 3], input[|input| - 2], input[|input| - 1]))
  {
    var n := |input| - 4;
    var body := new byte[n](i requires 0 <= i < n => input[i]);
    assert body[..n] == input[..n];
    var crc := Crc32(body, n);
    return crc == Le32(input[n], input[n + 1], input[n + 2], input[n + 3]);
  }

  // `done` has been pushed, `rest` is what the remaining records still decode to.
  ghost predicate Continues(total: Option<seq<Record>>, done: seq<Record>, rest: Option<seq<Record>>) {
    total == if rest.None? then None else Some(done + rest.value)
  }

  lemma ContinueWithRecord(total: Option<seq<Record>>, done: seq<Record>, s: seq<byte>, i: nat, count: nat)
    requires i < count && 12 + 25 * count <= |s| && Continues(total, done, RecordsFrom(s, i, count))
    ensures Stamped(RecordAt(s, i)) ==> Continues(total, done + [RecordAt(s, i)], RecordsFrom(s, i + 1, count))
    ensures !Stamped(RecordAt(s, i)) ==> total == None
  {
    var rest := RecordsFrom(s, i + 1, count);
    if rest.Some? { assert done + ([RecordAt(s, i)] + rest.value) == (done + [RecordAt(s, i)]) + rest.value; }
  }

  method DecodeRecords(input: seq<byte>, count: nat, capacity: nat) returns (ok: bool, decoded: Ring)
    requires 0 < capacity && count <= capacity && |input| == ImageLength(capacity)
    ensures decoded.Valid() && fresh(decoded) && fresh(decoded.records) && decoded.capacity == capacity
    ensures ok == RecordsFrom(input, 0, count).Some?
    ensures ok ==> decoded.Contents() == RecordsFrom(input, 0, count).value
  {
    decoded := new Ring(capacity);
    ghost var total := RecordsFrom(input, 0, count);
    assert total.Some? ==> [] + total.value == total.value;
    for i := 0 to count
      invariant decoded.Valid() && fresh(decoded) && fresh(decoded.records) && |decoded.Contents()| == i
      invariant Continues(total, decoded.Contents(), RecordsFrom(input, i, count))
    {
      ContinueWithRecord(total, decoded.Contents(), input, i, count);
      hide RecordsFrom;
      var record := RecordAt(input, i);
      if record[0] != 0x21 || record[1] != 0xce { return false, decoded; }
      decoded.Push(record);
    }
    assert decoded.Contents() + [] == decoded.Contents();
    return true, decoded;
  }

  // Decoding pushes the records into a fresh ring and assigns it only when all of them passed.
  method Decode(input: seq<byte>, ring: Ring) returns (ok: bool, generation: u32)
    requires ring.Valid()
    modifies ring, ring.records
    ensures ring.Valid() && ring.records == old(ring.records)
    ensures match DecodeImage(input, ring.capacity)
            case None => !ok && ring.Contents() == old(ring.Contents())
            case Some((rs, g)) => ok && ring.Contents() == rs && generation == g
  {
    hide Crc32Of, RecordsFrom;
    generation := 0;
    var capacity := ring.capacity;
    if |input| != ImageLength(capacity) { return false, 0; }
    if input[0] != 0x4d || input[1] != 0x42 || input[2] != 0x48 || input[3] != 1 { return false, 0; }
    var checksum := ChecksumHolds(input);
    if !checksum { return false, 0; }
    var count := Le16(input[8], input[9]);
    if count > capacity { return false, 0; }
    var recordsOk, decoded := DecodeRecords(input, count, capacity);
    if !recordsOk { return false, 0; }
    generation := Le32(input[4], input[5], input[6], input[7]);
    ring.Assign(decoded);
    return true, generation;
  }
}
