/** The chunk transfer of READ and WRITE: one side sends the file in chunks and a STOP
    packet, the other acknowledges every packet and stores what it finds in it as a C
    string. Channels keep message boundaries and lose nothing. */
module Transfer {
  import opened CStrings

  const CHUNK_SIZE: nat := 512
  const NUL: Byte := 0

  type Packet = Bytes

  // ---------- packets ----------

  /** What `fread(buf, 1, CHUNK_SIZE, file)` returns, call after call. */
  function Chunks(file: Bytes): (c: seq<Packet>)
    decreases |file|
  {
    if file == [] then []
    else if |file| <= CHUNK_SIZE then [file]
    else [file[..CHUNK_SIZE]] + Chunks(file[CHUNK_SIZE..])
  }

  /** The C string at the start of a zeroed buffer holding the packet. */
  function Cut(p: Packet): (s: Bytes)
    ensures NUL !in s && |s| <= |p|
  {
    if p == [] || p[0] == NUL then [] else [p[0]] + Cut(p[1..])
  }

  function Lower(b: Byte): Byte {
    if 65 <= b <= 90 then b + 32 else b
  }

  /** Equality of C strings up to the case of ASCII letters. */
  predicate SameIgnoringCase(s: Bytes, t: Bytes) {
    |s| == |t| && forall i :: 0 <= i < |s| ==> Lower(s[i]) == Lower(t[i])
  }

  const STOP: Bytes := [83, 84, 79, 80]
  const ACK: Bytes := [65, 67, 75]

  /** A short word in a buffer of CHUNK_SIZE + 1 zeroed bytes, sent whole. */
  function Padded(word: Bytes): Packet
    requires |word| <= CHUNK_SIZE
  {
    word + seq(CHUNK_SIZE + 1 - |word|, i => NUL)
  }

  predicate IsStop(p: Packet) {
    SameIgnoringCase(Cut(p), STOP)
  }

  predicate IsAck(p: Packet) {
    SameIgnoringCase(Cut(p), ACK)
  }

  lemma {:induction false} CutPadding(word: Bytes, rest: Bytes)
    requires NUL !in word
    requires rest == [] || rest[0] == NUL
    ensures Cut(word + rest) == word
  {
    if word == [] {
      assert word + rest == rest;
    } else {
      assert (word + rest)[1..] == word[1..] + rest;
      CutPadding(word[1..], rest);
    }
  }

  lemma StopAndAck()
    ensures IsStop(Padded(STOP)) && !IsAck(Padded(STOP))
    ensures IsAck(Padded(ACK)) && !IsStop(Padded(ACK))
    ensures !IsAck([])
  {
    CutPadding(STOP, seq(CHUNK_SIZE + 1 - |STOP|, i => NUL));
    CutPadding(ACK, seq(CHUNK_SIZE + 1 - |ACK|, i => NUL));
  }

  // ---------- the same in bytes ----------

  /** A packet ends, for the receiver, before its first zero byte. */
  lemma {:induction false} CutExactly(p: Packet, n: nat)
    ensures |Cut(p)| == n <==> n <= |p| && (forall k :: 0 <= k < n ==> p[k] != 0) && (n < |p| ==> p[n] == 0)
    ensures Cut(p) <= p
  {
    if p != [] && p[0] != 0 {
      CutExactly(p[1..], if n > 0 then n - 1 else 0);
    }
  }

  /** A packet reads like STOP iff it is those four letters, in either case, and no more. */
  lemma IsStopExactly(p: Packet)
    ensures IsStop(p) <==>
              && |p| >= 4 && (|p| > 4 ==> p[4] == 0)
              && p[0] in {83, 115} && p[1] in {84, 116} && p[2] in {79, 111} && p[3] in {80, 112}
  {
    CutExactly(p, 4);
    CutExactly(p, |Cut(p)|);
  }

  /** It is an acknowledgement iff it is the letters of ACK, in either case, and no more. */
  lemma IsAckExactly(p: Packet)
    ensures IsAck(p) <==>
              && |p| >= 3 && (|p| > 3 ==> p[3] == 0)
              && p[0] in {65, 97} && p[1] in {67, 99} && p[2] in {75, 107}
  {
    CutExactly(p, 3);
    CutExactly(p, |Cut(p)|);
  }

  /** The file is cut every 512 bytes. */
  lemma {:induction false} ChunksExactly(file: Bytes, k: nat)
    ensures |Chunks(file)| == (|file| + 511) / 512
    ensures k < |Chunks(file)| ==>
              512 * k < |file| &&
              Chunks(file)[k] == file[512 * k..if 512 * (k + 1) < |file| then 512 * (k + 1) else |file|]
    decreases |file|
  {
    if |file| > 512 {
      ChunksExactly(file[512..], if k > 0 then k - 1 else 0);
    }
  }

  /** A word is sent in a buffer of 513 bytes, zeroed behind it. */
  lemma PaddedExactly(word: Bytes, k: nat)
    requires |word| <= 512 && k < 513
    ensures |Padded(word)| == 513 && Padded(word)[k] == if k < |word| then word[k] else 0
  {
  }

  /** Everything a sender sends when nothing goes wrong. */
  function Packets(file: Bytes): (p: seq<Packet>)
    ensures |p| > 0
  {
    Chunks(file) + [Padded(STOP)]
  }

  /** What a receiver stores of a list of packets. */
  function Stored(p: seq<Packet>): (s: Bytes)
    ensures NUL !in s
  {
    if p == [] || IsStop(p[0]) then [] else Cut(p[0]) + Stored(p[1..])
  }

  // ---------- what arrives ----------

  /** The file's last, short chunk reads "stop", in letters of either case. */
  predicate EndsInStop(file: Bytes) {
    && |file| % 512 == 4
    && var s := file[|file| - 4..];
       s[0] in {83, 115} && s[1] in {84, 116} && s[2] in {79, 111} && s[3] in {80, 112}
  }

  lemma EndsInStopTail(file: Bytes)
    requires |file| > 512
    ensures EndsInStop(file) <==> EndsInStop(file[512..])
    ensures EndsInStop(file[512..]) ==> |file[512..]| >= 4
  {
    var tail := file[512..];
    assert |tail| % 512 == |file| % 512;
    if |tail| >= 4 {
      assert tail[|tail| - 4..] == file[|file| - 4..];
    }
  }

  lemma CutWhole(p: Packet)
    requires NUL !in p
    ensures Cut(p) == p
  {
    CutPadding(p, []);
    assert p + [] == p;
  }

  lemma StoredShort(file: Bytes)
    requires NUL !in file && |file| <= CHUNK_SIZE
    ensures Stored(Packets(file)) == if IsStop(file) then [] else file
  {
    StopAndAck();
    CutWhole(file);
    var p := Packets(file);
    hide Padded, IsStop, Cut;
    if file == [] {
      assert p == [Padded(STOP)];
    } else {
      assert p == [file, Padded(STOP)] && p[1..] == [Padded(STOP)];
      assert Stored([Padded(STOP)]) == [];
      assert file + [] == file;
    }
  }

  lemma StoredLong(file: Bytes)
    requires NUL !in file && |file| > CHUNK_SIZE
    ensures Stored(Packets(file)) == file[..CHUNK_SIZE] + Stored(Packets(file[CHUNK_SIZE..]))
  {
    var head, tail := file[..CHUNK_SIZE], file[CHUNK_SIZE..];
    CutWhole(head);
    assert !IsStop(head);
    assert Packets(file) == [head] + Packets(tail);
    assert ([head] + Packets(tail))[1..] == Packets(tail);
  }

  lemma StopIsWhole(file: Bytes)
    requires NUL !in file && |file| <= CHUNK_SIZE
    ensures IsStop(file) <==> EndsInStop(file)
    ensures IsStop(file) ==> |file| == 4
  {
    CutWhole(file);
    if |file| == 4 {
      assert file[|file| - 4..] == file;
    }
  }

  /** A file without NUL bytes arrives whole, or without its last chunk if that is "stop". */
  lemma {:induction false} StoredOfNulFree(file: Bytes)
    requires NUL !in file
    ensures Stored(Packets(file)) == if EndsInStop(file) then file[..|file| - 4] else file
    decreases |file|
  {
    hide Stored, Packets, IsStop, EndsInStop;
    if |file| <= CHUNK_SIZE {
      StoredShort(file);
      StopIsWhole(file);
    } else {
      var head, tail := file[..CHUNK_SIZE], file[CHUNK_SIZE..];
      assert file == head + tail;
      StoredLong(file);
      StoredOfNulFree(tail);
      EndsInStopTail(file);
      if |tail| >= 4 {
        assert head + tail[..|tail| - 4] == file[..|file| - 4];
      }
    }
  }

  /** WRITE stores the file, and READ prints it, iff it contains no NUL byte and does not
      end in a chunk that reads "stop". */
  lemma ArrivesExactly(file: Bytes)
    ensures Stored(Packets(file)) == file <==> NUL !in file && !EndsInStop(file)
  {
    hide Stored, Packets;
    if NUL !in file {
      StoredOfNulFree(file);
    }
  }

  // ---------- the two loops on their own ----------

  /** The k-th packet a recv returns; an empty one once the peer has closed. */
  function Reply(replies: seq<Packet>, k: nat): Packet {
    if k < |replies| then replies[k] else []
  }

  /** The sending loop. It goes on while the replies are ACK, and sends STOP only if all
      chunks were acknowledged; a peer that closes early counts as one that does not. */
  method SendFile(file: Bytes, replies: seq<Packet>) returns (sent: seq<Packet>, ok: bool)
    ensures ok <==> |Chunks(file)| <= |replies| && forall k :: 0 <= k < |Chunks(file)| ==> IsAck(replies[k])
    ensures ok ==> sent == Chunks(file) + [Padded([83, 84, 79, 80])]
    ensures !ok ==> 0 < |sent| <= |Chunks(file)| && sent == Chunks(file)[..|sent|]
    ensures !ok ==> |sent| - 1 <= |replies| && forall k :: 0 <= k < |sent| - 1 ==> IsAck(replies[k])
    ensures !ok ==> |replies| < |sent| || !IsAck(replies[|sent| - 1])
  {
    sent := [];
    var position := 0;
    assert file[position..] == file;
    hide Chunks, ChunksFrom, ReadChunk, Padded, IsAck;
    var serverSends := ReadChunk(file, position);
    while |serverSends| > 0
      invariant position <= |file|
      invariant serverSends == ReadChunk(file, position)
      invariant sent + ChunksFrom(file, position) == Chunks(file)
      invariant |sent| <= |replies| && forall k :: 0 <= k < |sent| ==> IsAck(replies[k])
      decreases |file| - position
    {
      ChunksAt(file, position, sent);
      sent := sent + [serverSends];
      position := position + |serverSends|;
      IsAckExactly([]);
      if !IsAck(Reply(replies, |sent| - 1)) {
        return sent, false;
      }
      serverSends := ReadChunk(file, position);
    }
    ChunksAt(file, position, sent);
    sent := sent + [Padded(STOP)];
    ok := true;
  }

  function ReadChunk(file: Bytes, position: nat): Packet
    requires position <= |file|
  {
    var rest := file[position..];
    if |rest| <= CHUNK_SIZE then rest else rest[..CHUNK_SIZE]
  }

  function ChunksFrom(file: Bytes, position: nat): seq<Packet>
    requires position <= |file|
  {
    Chunks(file[position..])
  }

  lemma ChunksAt(file: Bytes, position: nat, before: seq<Packet>)
    requires position <= |file|
    ensures var c := ReadChunk(file, position);
            && position + |c| <= |file|
            && before + ChunksFrom(file, position) ==
               if c == [] then before else (before + [c]) + ChunksFrom(file, position + |c|)
  {
    var rest, c := file[position..], ReadChunk(file, position);
    assert rest[|c|..] == file[position + |c|..];
  }

  /** The receiving loop on a channel that delivers `incoming`. */
  method ReceiveFile(incoming: seq<Packet>) returns (written: Bytes, acks: nat)
    requires exists i :: 0 <= i < |incoming| && IsStop(incoming[i])
    ensures written == Stored(incoming)
    ensures acks <= |incoming| && acks > 0 && IsStop(incoming[acks - 1])
    ensures forall i :: 0 <= i < acks - 1 ==> !IsStop(incoming[i])
  {
    written, acks := [], 0;
    assert incoming[acks..] == incoming;
    hide Stored, StoredFrom, IsStop, Cut;
    while true
      invariant acks < |incoming|
      invariant forall i :: 0 <= i < acks ==> !IsStop(incoming[i])
      invariant written + StoredFrom(incoming, acks) == Stored(incoming)
      decreases |incoming| - acks
    {
      var serverGets := incoming[acks];
      StoredAt(incoming, acks, written);
      acks := acks + 1;
      if IsStop(serverGets) {
        break;
      }
      written := written + Cut(serverGets);
    }
  }

  function StoredFrom(incoming: seq<Packet>, k: nat): Bytes
    requires k <= |incoming|
  {
    Stored(incoming[k..])
  }

  lemma StoredAt(incoming: seq<Packet>, k: nat, before: Bytes)
    requires k < |incoming|
    ensures before + StoredFrom(incoming, k) ==
            if IsStop(incoming[k]) then before else (before + Cut(incoming[k])) + StoredFrom(incoming, k + 1)
  {
    assert incoming[k..][1..] == incoming[k + 1..];
  }
}
