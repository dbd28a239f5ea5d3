/** sha2.c: SHA-256 fed piece by piece, with the schedule in a window of 16 words that lies in
    the context's own buffer. */
module Sha256Code {
  import opened Bytes
  import opened Blocks
  import opened Sha256Spec

  // ---- words in a byte buffer, in host order ----

  function HostWord(bytes: seq<Byte>, j: nat): Word
    requires 4 * j + 4 <= |bytes|
  {
    Join(bytes[4 * j + 3], bytes[4 * j + 2], bytes[4 * j + 1], bytes[4 * j])
  }

  lemma JoinBytes(w: Word)
    ensures var b := WordToBytes(w); Join(b[0], b[1], b[2], b[3]) == w
  {
    hide ByteOf, Wide;
    LowByte(w >> 24);
    LowByte(w >> 16);
    LowByte(w >> 8);
    LowByte(w);
    FourParts(w);
  }

  lemma LowByte(w: Word)
    ensures Wide(ByteOf(w)) == w & 0xff
  {
    SameByte((w & 0xff) as bv8);
    Narrow(w & 0xff);
  }

  lemma SameByte(b: bv8)
    ensures b as Byte as bv8 == b
  {
  }

  lemma Narrow(w: Word)
    requires w < 256
    ensures w as bv8 as bv32 == w
  {
  }

  lemma FourParts(w: Word)
    ensures (((w >> 24) & 0xff) << 24) | (((w >> 16) & 0xff) << 16) | (((w >> 8) & 0xff) << 8) | (w & 0xff) == w
  {
  }

  method StoreWord(buffer: array<Byte>, j: nat, w: Word)
    requires 4 * j + 4 <= buffer.Length
    modifies buffer
    ensures HostWord(buffer[..], j) == w
    ensures forall i :: 0 <= i && 4 * i + 4 <= buffer.Length && i != j ==> HostWord(buffer[..], i) == old(HostWord(buffer[..], i))
  {
    hide Join, WordToBytes;
    JoinBytes(w);
    var b := WordToBytes(w);
    buffer[4 * j], buffer[4 * j + 1], buffer[4 * j + 2], buffer[4 * j + 3] := b[3], b[2], b[1], b[0];
  }

  /** The window holds the 16 words of the schedule before step j, each at its place modulo 16. */
  ghost predicate Window(buffer: seq<Byte>, block: seq<Byte>, j: nat) {
    && |buffer| == |block| == BLOCK_LENGTH
    && forall t :: 0 <= t && j - 16 <= t < j ==> HostWord(buffer, t % 16) == Schedule(block, t)
  }

  lemma NextSchedule(buffer: seq<Byte>, block: seq<Byte>, j: nat)
    requires j >= 16 && Window(buffer, block, j)
    ensures Schedule(block, j) ==
      Plus(HostWord(buffer, j % 16),
           Sum(SmallSigma1(HostWord(buffer, (j + 14) % 16)), HostWord(buffer, (j + 9) % 16),
               SmallSigma0(HostWord(buffer, (j + 1) % 16))))
  {
    hide SmallSigma0, SmallSigma1, HostWord, Plus, Sum;
    assert (j - 16) % 16 == j % 16 && (j - 2) % 16 == (j + 14) % 16;
    assert (j - 7) % 16 == (j + 9) % 16 && (j - 15) % 16 == (j + 1) % 16;
  }

  lemma WindowStep(was: seq<Byte>, now: seq<Byte>, block: seq<Byte>, j: nat)
    requires Window(was, block, j) && |now| == BLOCK_LENGTH
    requires HostWord(now, j % 16) == Schedule(block, j)
    requires forall i :: 0 <= i < 16 && i != j % 16 ==> HostWord(now, i) == HostWord(was, i)
    ensures Window(now, block, j + 1)
  {
    hide HostWord, Schedule;
    forall t | 0 <= t && j + 1 - 16 <= t < j + 1
      ensures HostWord(now, t % 16) == Schedule(block, t)
    {
      if t < j {
        assert t % 16 != j % 16;
      }
    }
  }

  class Context {
    const state: array<Word>
    const buffer: array<Byte>
    var bitcount: nat
    ghost var msg: seq<Byte>    // everything fed in so far

    ghost predicate Shaped()
      reads this
    {
      state.Length == 8 && buffer.Length == BLOCK_LENGTH
    }

    ghost predicate Valid()
      reads this, state, buffer
    {
      && Shaped()
      && |msg| < 0x2000_0000_0000_0000
      && bitcount == 8 * |msg|
      && state[..] == HashBlocks(msg)
      && buffer[..|msg| % BLOCK_LENGTH] == Rest(msg)
    }

    /** SHA256_Init on new storage. */
    constructor ()
      ensures Valid() && msg == [] && fresh(state) && fresh(buffer)
    {
      state := new Word[8];
      buffer := new Byte[64](_ => 0);
      bitcount := 0;
      msg := [];
      new;
      TableSizes();
      forall i | 0 <= i < 8 {
        state[i] := INITIAL[i];
      }
      assert state[..] == INITIAL;
    }

    /** SHA256_Init on a used context. */
    method Init()
      requires Shaped()
      modifies this, state, buffer
      ensures Valid() && msg == []
    {
      TableSizes();
      forall i | 0 <= i < 8 {
        state[i] := INITIAL[i];
      }
      assert state[..] == INITIAL;
      forall i | 0 <= i < 64 {
        buffer[i] := 0;
      }
      bitcount := 0;
      msg := [];
    }

    /** SHA256_Transform, the rolled version: the window takes the buffer's place. */
    method Transform(data: seq<Byte>)
      requires Shaped() && |data| == BLOCK_LENGTH
      modifies state, buffer
      ensures state[..] == Compress(old(state[..]), data)
    {
      hide Rounds, Schedule, Round, Plus, AddRegisters;
      ghost var s0 := state[..];
      var r := Load(state[..]);
      FirstRound(s0, data);
      r := CopyRounds(r, data, s0);
      r := MixRounds(r, data, s0);
      AddToState(r);
    }

    method AddToState(r: Registers)
      requires Shaped()
      modifies state
      ensures state[..] == AddRegisters(old(state[..]), r)
    {
      hide Plus;
      var s := state[..];
      state[0], state[1], state[2], state[3] := Plus(s[0], r.a), Plus(s[1], r.b), Plus(s[2], r.c), Plus(s[3], r.d);
      state[4], state[5], state[6], state[7] := Plus(s[4], r.e), Plus(s[5], r.f), Plus(s[6], r.g), Plus(s[7], r.h);
    }

    /** Steps 0 to 15: each word is copied into the window and used at once. */
    method CopyRounds(r0: Registers, data: seq<Byte>, ghost s0: seq<Word>) returns (r: Registers)
      requires Shaped() && |data| == BLOCK_LENGTH && |s0| == 8 && r0 == Rounds(s0, data, 0)
      modifies buffer
      ensures r == Rounds(s0, data, 16) && Window(buffer[..], data, 16)
    {
      hide Rounds, Round, HostWord, BeWord, RoundConstant;
      r := r0;
      for j := 0 to 16
        invariant r == Rounds(s0, data, j) && Window(buffer[..], data, j)
      {
        ghost var was := buffer[..];
        StoreWord(buffer, j, BeWord(data, j));
        FirstWords(data, j);
        WindowStep(was, buffer[..], data, j);
        NextRound(s0, data, j);
        r := Round(r, RoundConstant(j), BeWord(data, j));
      }
    }

    /** Steps 16 to 63: the window's oldest word is replaced by the next of the schedule. */
    method MixRounds(r0: Registers, data: seq<Byte>, ghost s0: seq<Word>) returns (r: Registers)
      requires Shaped() && |data| == BLOCK_LENGTH && |s0| == 8
      requires r0 == Rounds(s0, data, 16) && Window(buffer[..], data, 16)
      modifies buffer
      ensures r == Rounds(s0, data, 64)
    {
      hide Rounds, Round, HostWord, Schedule, SmallSigma0, SmallSigma1, Window, RoundConstant;
      r := r0;
      for j := 16 to 64
        invariant r == Rounds(s0, data, j) && Window(buffer[..], data, j)
      {
        ghost var was := buffer[..];
        var w := MixWord(data, j);
        NextRound(s0, data, j);
        r := Round(r, RoundConstant(j), w);
      }
    }

    method MixWord(ghost data: seq<Byte>, j: nat) returns (w: Word)
      requires Shaped() && |data| == BLOCK_LENGTH && j >= 16 && Window(buffer[..], data, j)
      modifies buffer
      ensures w == Schedule(data, j) && Window(buffer[..], data, j + 1)
    {
      hide HostWord, Schedule, SmallSigma0, SmallSigma1, Window, Plus, Sum;
      var s0 := SmallSigma0(HostWord(buffer[..], (j + 1) % 16));
      var s1 := SmallSigma1(HostWord(buffer[..], (j + 14) % 16));
      NextSchedule(buffer[..], data, j);
      w := Plus(HostWord(buffer[..], j % 16), Sum(s1, HostWord(buffer[..], (j + 9) % 16), s0));
      ghost var was := buffer[..];
      StoreWord(buffer, j % 16, w);
      WindowStep(was, buffer[..], data, j);
    }

    /** SHA256_Update: the new data is appended to what has been fed in. */
    method Update(data: seq<Byte>)
      requires Valid() && |msg| + |data| < 0x2000_0000_0000_0000
      modifies this, state, buffer
      ensures Valid() && msg == old(msg) + data
    {
      hide HashBlocks, Compress;
      if |data| == 0 {
        assert msg == msg + data;
        return;
      }
      var pos := 0;
      var usedspace := bitcount / 8 % BLOCK_LENGTH;
      if usedspace > 0 {
        var freespace := BLOCK_LENGTH - usedspace;
        if |data| >= freespace {
          Complete(data[..freespace], usedspace);
          pos := freespace;
        } else {
          Wait(data, usedspace);
          return;
        }
      }
      ghost var m0 := old(msg);
      assert msg == m0 + data[..pos];
      while |data| - pos >= BLOCK_LENGTH
        invariant 0 <= pos <= |data| && Valid() && |msg| % BLOCK_LENGTH == 0 && msg == m0 + data[..pos]
      {
        ghost var block := data[pos..pos + BLOCK_LENGTH];
        assert data[..pos + BLOCK_LENGTH] == data[..pos] + block;
        assert m0 + data[..pos] + block == m0 + data[..pos + BLOCK_LENGTH];
        Whole(data[pos..pos + BLOCK_LENGTH]);
        pos := pos + BLOCK_LENGTH;
      }
      if |data| - pos > 0 {
        assert m0 + data[..pos] + data[pos..] == m0 + data by { assert data == data[..pos] + data[pos..]; }
        Wait(data[pos..], 0);
      } else {
        assert data[..pos] == data;
      }
    }

    /** Fills the buffer and processes it. */
    method Complete(d: seq<Byte>, usedspace: nat)
      requires Valid() && usedspace == |msg| % BLOCK_LENGTH && usedspace + |d| == BLOCK_LENGTH
      requires |msg| + |d| < 0x2000_0000_0000_0000
      modifies this, state, buffer
      ensures Valid() && msg == old(msg) + d && |msg| % BLOCK_LENGTH == 0
    {
      hide HashBlocks, Compress;
      HashCompletes(msg, d);
      forall i | 0 <= i < |d| {
        buffer[usedspace + i] := d[i];
      }
      bitcount := bitcount + 8 * |d|;
      assert buffer[..] == Rest(msg) + d;
      assert state[..] == HashBlocks(msg);
      Transform(buffer[..]);
      msg := msg + d;
      assert state[..] == HashBlocks(msg);
      assert Shaped() && bitcount == 8 * |msg|;
      assert buffer[..0] == Rest(msg);
    }

    /** Processes a block straight from the data. */
    method Whole(d: seq<Byte>)
      requires Valid() && |msg| % BLOCK_LENGTH == 0 && |d| == BLOCK_LENGTH
      requires |msg| + |d| < 0x2000_0000_0000_0000
      modifies this, state, buffer
      ensures Valid() && msg == old(msg) + d && |msg| % BLOCK_LENGTH == 0
    {
      hide HashBlocks, Compress;
      HashCompletes(msg, d);
      assert Rest(msg) + d == d;
      Transform(d);
      bitcount := bitcount + 8 * BLOCK_LENGTH;
      msg := msg + d;
    }

    /** Keeps data that does not complete a block. */
    method Wait(d: seq<Byte>, usedspace: nat)
      requires Valid() && usedspace == |msg| % BLOCK_LENGTH && usedspace + |d| < BLOCK_LENGTH
      requires |msg| + |d| < 0x2000_0000_0000_0000
      modifies this, buffer
      ensures Valid() && msg == old(msg) + d
    {
      hide HashBlocks, Compress;
      HashWaits(msg, d);
      forall i | 0 <= i < |d| {
        buffer[usedspace + i] := d[i];
      }
      assert buffer[..usedspace + |d|] == Rest(msg) + d;
      bitcount := bitcount + 8 * |d|;
      msg := msg + d;
    }

    /** SHA256_Final: pads, writes the digest, and wipes the context. */
    method Final(digest: array<Byte>)
      requires Valid() && digest.Length >= DIGEST_LENGTH && digest != buffer
      modifies this, state, buffer, digest
      ensures digest[..DIGEST_LENGTH] == Sha256(old(msg)) && digest[DIGEST_LENGTH..] == old(digest[DIGEST_LENGTH..])
      ensures Shaped()
    {
      hide HashBlocks, Compress, Padding, BigEndian, WordBytes;
      ghost var m := msg;
      PadAndFinish();
      WriteDigest(digest);
      forall i | 0 <= i < 8 {
        state[i] := 0;
      }
      forall i | 0 <= i < 64 {
        buffer[i] := 0;
      }
      bitcount := 0;
    }

    /** The digest's words, most significant byte first. */
    method WriteDigest(digest: array<Byte>)
      requires Shaped() && digest.Length >= DIGEST_LENGTH
      modifies digest
      ensures digest[..DIGEST_LENGTH] == WordBytes(state[..]) && digest[DIGEST_LENGTH..] == old(digest[DIGEST_LENGTH..])
    {
      hide WordToBytes;
      for j := 0 to 8
        invariant digest[..4 * j] == WordBytes(state[..j]) && digest[DIGEST_LENGTH..] == old(digest[DIGEST_LENGTH..])
        invariant state[..] == old(state[..])
      {
        var w := WordToBytes(state[j]);
        ghost var done := digest[..4 * j];
        digest[4 * j], digest[4 * j + 1], digest[4 * j + 2], digest[4 * j + 3] := w[0], w[1], w[2], w[3];
        assert digest[..4 * (j + 1)] == done + w;
        assert state[..j + 1][..j] == state[..j];
      }
      assert state[..8] == state[..];
    }

    /** The padding of SHA256_Final with its one or two transforms. */
    method PadAndFinish()
      requires Valid()
      modifies this, state, buffer
      ensures Shaped() && state[..] == HashBlocks(old(msg) + Padding(|old(msg)|))
    {
      hide HashBlocks, Compress, Padding, BigEndian;
      var usedspace := bitcount / 8 % BLOCK_LENGTH;
      ghost var m, count, block := msg, BigEndian(bitcount, 8), [];
      if usedspace > 0 {
        buffer[usedspace] := 0x80;
        usedspace := usedspace + 1;
        if usedspace <= 56 {
          ClearRange(usedspace, 56);
          block := FinalBlock(m);
          assert buffer[..56] == Rest(m) + [0x80] + Zeros(56 - usedspace);
        } else {
          SecondToLast(usedspace);
          ClearRange(0, 56);
          block := Zeros(56) + count;
        }
      } else {
        ClearRange(0, 56);
        buffer[0] := 0x80;
        block := FinalBlock(m);
        assert buffer[..56] == Rest(m) + [0x80] + Zeros(55);
      }
      assert buffer[..56] == block[..56];
      PutCount();
      assert buffer[..] == block;
      Transform(buffer[..]);
    }

    /** The transform before the last, when the length does not fit behind the first padding. */
    method SecondToLast(usedspace: nat)
      requires Shaped() && |msg| < 0x2000_0000_0000_0000 && state[..] == HashBlocks(msg) && bitcount == 8 * |msg|
      requires 57 <= usedspace == |msg| % BLOCK_LENGTH + 1 <= BLOCK_LENGTH
      requires buffer[..usedspace] == Rest(msg) + [0x80]
      modifies state, buffer
      ensures Compress(state[..], Zeros(56) + BigEndian(bitcount, 8)) == HashBlocks(msg + Padding(|msg|))
    {
      hide HashBlocks, Compress, Padding, BigEndian;
      TwoBlocks(msg);
      if usedspace < BLOCK_LENGTH {
        ClearRange(usedspace, BLOCK_LENGTH);
      }
      assert buffer[..] == Rest(msg) + ([0x80] + Zeros(BLOCK_LENGTH - usedspace));
      Transform(buffer[..]);
    }

    method ClearRange(from: nat, to: nat)
      requires Shaped() && from <= to <= BLOCK_LENGTH
      modifies buffer
      ensures buffer[..from] == old(buffer[..from]) && buffer[from..to] == Zeros(to - from) && buffer[to..] == old(buffer[to..])
    {
      forall i | from <= i < to {
        buffer[i] := 0;
      }
    }

    /** The number of bits goes to the last eight bytes. */
    method PutCount()
      requires Shaped()
      modifies buffer
      ensures buffer[..56] == old(buffer[..56]) && buffer[56..] == BigEndian(bitcount, 8)
    {
      hide BigEndian;
      var count := BigEndian(bitcount, 8);
      forall i | 0 <= i < 8 {
        buffer[56 + i] := count[i];
      }
    }
  }

  // ---- padding ----

  lemma PaddingShape(len: nat)
    ensures var used := len % BLOCK_LENGTH;
      Padding(len) == [0x80] + Zeros(if used < 56 then 55 - used else 119 - used) + BigEndian(8 * len, 8)
  {
  }

  /** The last block when the length fits behind the message. */
  lemma FinalBlock(m: seq<Byte>) returns (block: seq<Byte>)
    requires |m| % BLOCK_LENGTH < 56
    ensures block == Rest(m) + [0x80] + Zeros(55 - |m| % BLOCK_LENGTH) + BigEndian(8 * |m|, 8) && |block| == BLOCK_LENGTH
    ensures HashBlocks(m + Padding(|m|)) == Compress(HashBlocks(m), block)
  {
    hide HashBlocks, Compress, BigEndian, Padding;
    PaddingShape(|m|);
    HashCompletes(m, Padding(|m|));
    block := Rest(m) + Padding(|m|);
  }

  /** The two last blocks when it does not. */
  lemma TwoBlocks(m: seq<Byte>)
    requires |m| % BLOCK_LENGTH >= 56
    ensures var first := [0x80] + Zeros(63 - |m| % BLOCK_LENGTH);
      Compress(Compress(HashBlocks(m), Rest(m) + first), Zeros(56) + BigEndian(8 * |m|, 8)) == HashBlocks(m + Padding(|m|))
  {
    hide HashBlocks, Compress, BigEndian, Padding, Rest, Zeros;
    var first, second := [0x80] + Zeros(63 - |m| % BLOCK_LENGTH), Zeros(56) + BigEndian(8 * |m|, 8);
    PaddingSplits(|m|);
    TwoSteps(m, first, second);
  }

  lemma TwoSteps(m: seq<Byte>, first: seq<Byte>, second: seq<Byte>)
    requires |m| % BLOCK_LENGTH + |first| == BLOCK_LENGTH && |second| == BLOCK_LENGTH
    ensures Compress(Compress(HashBlocks(m), Rest(m) + first), second) == HashBlocks(m + (first + second))
  {
    hide HashBlocks, Compress, Rest, Whole;
    HashCompletes(m, first);
    ThenWhole(m + first, second);
    Regroup(m, first, second);
  }

  lemma Regroup(a: seq<Byte>, b: seq<Byte>, c: seq<Byte>)
    ensures a + b + c == a + (b + c)
  {
  }

  lemma ThenWhole(m: seq<Byte>, block: seq<Byte>)
    requires |m| % BLOCK_LENGTH == 0 && Rest(m) == [] && |block| == BLOCK_LENGTH
    ensures HashBlocks(m + block) == Compress(HashBlocks(m), block)
  {
    hide HashBlocks, Compress, Rest;
    HashCompletes(m, block);
    assert [] + block == block;
  }

  lemma PaddingSplits(len: nat)
    requires len % BLOCK_LENGTH >= 56
    ensures Padding(len) == [0x80] + Zeros(63 - len % BLOCK_LENGTH) + (Zeros(56) + BigEndian(8 * len, 8))
  {
    hide BigEndian, Padding;
    PaddingShape(len);
    var used := len % BLOCK_LENGTH;
    assert Zeros(119 - used) == Zeros(63 - used) + Zeros(56);
  }

  // ---- the rounds ----

  lemma FirstRound(s: seq<Word>, block: seq<Byte>)
    requires |s| == 8 && |block| == BLOCK_LENGTH
    ensures Rounds(s, block, 0) == Load(s)
  {
  }

  lemma NextRound(s: seq<Word>, block: seq<Byte>, j: nat)
    requires |s| == 8 && |block| == BLOCK_LENGTH && j < 64
    ensures Rounds(s, block, j + 1) == Round(Rounds(s, block, j), RoundConstant(j), Schedule(block, j))
  {
    hide Round, Schedule, RoundConstant;
  }

  lemma FirstWords(block: seq<Byte>, j: nat)
    requires |block| == BLOCK_LENGTH && j < 16
    ensures Schedule(block, j) == BeWord(block, j)
  {
  }

  // ---- whole blocks and the rest ----

  /** What is left after the whole blocks. */
  function Rest(msg: seq<Byte>): (r: seq<Byte>)
    ensures |r| == |msg| % BLOCK_LENGTH
  {
    msg[|msg| - |msg| % BLOCK_LENGTH..]
  }

  lemma HashIgnoresRest(msg: seq<Byte>, n: nat)
    requires n <= |msg| < n + BLOCK_LENGTH && n % BLOCK_LENGTH == 0
    ensures HashBlocks(msg) == HashBlocks(msg[..n])
  {
    hide Compress, HashBlocks, Whole;
    WholeIs(|msg|, n);
    WholeIs(n, n);
    HashUnfolds(msg, n);
    HashUnfolds(msg[..n], n);
    if n > 0 {
      assert msg[..n][..n - BLOCK_LENGTH] == msg[..n - BLOCK_LENGTH];
      assert msg[..n][n - BLOCK_LENGTH..n] == msg[n - BLOCK_LENGTH..n];
    }
  }

  lemma Aligned(len: nat, n: nat, all: nat)
    requires n == len - len % BLOCK_LENGTH && all == n + BLOCK_LENGTH
    ensures n % BLOCK_LENGTH == 0 && all % BLOCK_LENGTH == 0 && n <= len < n + BLOCK_LENGTH
  {
  }

  /** Data that completes a block is hashed with what was waiting for it. */
  lemma HashCompletes(msg: seq<Byte>, d: seq<Byte>)
    requires |msg| % BLOCK_LENGTH + |d| == BLOCK_LENGTH
    ensures HashBlocks(msg + d) == Compress(HashBlocks(msg), Rest(msg) + d)
    ensures |msg + d| % BLOCK_LENGTH == 0 && Rest(msg + d) == []
  {
    hide Compress, HashBlocks, Whole;
    var n := |msg| - |msg| % BLOCK_LENGTH;
    Aligned(|msg|, n, |msg + d|);
    Completed(msg, d, n);
  }

  lemma Completed(msg: seq<Byte>, d: seq<Byte>, n: nat)
    requires n <= |msg| < n + BLOCK_LENGTH == |msg + d| && n % BLOCK_LENGTH == 0 && |msg + d| % BLOCK_LENGTH == 0
    ensures HashBlocks(msg + d) == Compress(HashBlocks(msg), msg[n..] + d)
  {
    hide Compress, HashBlocks, Whole;
    var all := msg + d;
    WholeIs(|all|, |all|);
    HashUnfolds(all, |all|);
    assert all[..n] == msg[..n] && all[n..|all|] == msg[n..] + d;
    HashIgnoresRest(msg, n);
  }

  /** Data that does not complete a block waits. */
  lemma HashWaits(msg: seq<Byte>, d: seq<Byte>)
    requires |msg| % BLOCK_LENGTH + |d| < BLOCK_LENGTH
    ensures HashBlocks(msg + d) == HashBlocks(msg) && Rest(msg + d) == Rest(msg) + d
    ensures |msg + d| % BLOCK_LENGTH == |msg| % BLOCK_LENGTH + |d|
  {
    hide HashBlocks, Whole;
    var n := |msg| - |msg| % BLOCK_LENGTH;
    WholeIs(|msg + d|, n);
    assert (msg + d)[..n] == msg[..n];
    HashIgnoresRest(msg, n);
    HashIgnoresRest(msg + d, n);
  }
}
