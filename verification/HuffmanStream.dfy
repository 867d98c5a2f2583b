/** Packing symbols into bytes with a canonical code, and decoding them through the lookahead window. */
module HuffmanStream {
  import opened Wrappers
  import opened Bytes
  import opened Huffman

  // --- The stream of bits -----------------------------------------------------------------

  ghost predicate Symbols(lengths: seq<nat>, syms: seq<nat>) {
    |lengths| <= 256 && forall i :: 0 <= i < |syms| ==> syms[i] < |lengths| && lengths[syms[i]] > 0
  }

  function CodeBits(lengths: seq<nat>, s: nat): (bits: seq<bool>)
    requires s < |lengths|
    ensures |bits| == lengths[s]
  {
    Bits(Code(lengths, s), lengths[s])
  }

  ghost function Stream(lengths: seq<nat>, syms: seq<nat>): seq<bool>
    requires Symbols(lengths, syms)
  {
    if syms == [] then [] else CodeBits(lengths, syms[0]) + Stream(lengths, syms[1..])
  }

  ghost function ByteBits(bytes: seq<nat>): (bits: seq<bool>)
    ensures |bits| == 8 * |bytes|
  {
    if bytes == [] then [] else Bits(bytes[0], 8) + ByteBits(bytes[1..])
  }

  lemma {:induction false} ByteBitsSnoc(bytes: seq<nat>, b: nat)
    ensures ByteBits(bytes + [b]) == ByteBits(bytes) + Bits(b, 8)
  {
    hide Bits;
    if bytes != [] {
      ByteBitsSnoc(bytes[1..], b);
      assert (bytes + [b])[1..] == bytes[1..] + [b];
    } else {
      assert (bytes + [b])[1..] == [];
    }
  }

  function Padding(n: nat): (bits: seq<bool>)
    ensures |bits| == n
  {
    if n == 0 then [] else Padding(n - 1) + [false]
  }

  lemma {:induction false} PaddingBits(n: nat)
    ensures Bits(0, n) == Padding(n)
  {
    if n > 0 {
      PaddingBits(n - 1);
    }
  }

  /** The bytes are the stream, filled up with zero bits to a whole byte. */
  ghost predicate Packed(lengths: seq<nat>, syms: seq<nat>, bytes: seq<nat>)
    requires Symbols(lengths, syms)
  {
    exists pad: nat :: pad < 8 && ByteBits(bytes) == Stream(lengths, syms) + Padding(pad)
  }

  // --- Packing ----------------------------------------------------------------------------

  lemma EntryParts(lengths: seq<nat>, s: nat)
    requires Kraft(lengths) && s < |lengths| && lengths[s] > 0
    ensures var e := EncoderEntry(Code(lengths, s), lengths[s]);
      EntryLength(e) == lengths[s] <= MAX_LEN && EntryCode(e) == Code(lengths, s) < Pow2(lengths[s])
  {
    hide Code, KraftSum;
    CodeFits(lengths, s);
    PowSmall(lengths[s]);
  }

  lemma PowSmall(l: nat)
    requires l <= MAX_LEN
    ensures Pow2(l) <= 65536
  {
    hide Pow2;
    PowWindow();
    Pow2Add(8, 8);
    Pow2Add(l, MAX_LEN - l);
    TimesAtLeast(Pow2(l), Pow2(MAX_LEN - l));
  }

  lemma TimesAtLeast(x: nat, y: nat)
    requires y > 0
    ensures x <= x * y
  {
    assert x * (y - 1) >= 0;
  }

  /** What has been emitted, what is pending and what is to come make up the stream. */
  ghost predicate Balance(all: seq<bool>, out: seq<nat>, pending: seq<bool>, todo: seq<bool>) {
    all == ByteBits(out) + (pending + todo)
  }

  lemma BalanceCode(all: seq<bool>, out: seq<nat>, pending: seq<bool>, code: seq<bool>, todo: seq<bool>)
    requires Balance(all, out, pending, code + todo)
    ensures Balance(all, out, pending + code, todo)
  {
    assert (pending + code) + todo == pending + (code + todo);
  }

  lemma BalanceByte(all: seq<bool>, out: seq<nat>, pending: seq<bool>, todo: seq<bool>, b: nat)
    requires Balance(all, out, pending, todo) && |pending| >= 8 && b == Num(pending[..8])
    ensures Balance(all, out + [b], pending[8..], todo)
  {
    hide Num, Bits, ByteBits;
    var hi, lo := pending[..8], pending[8..];
    BitsNum(hi);
    ByteBitsSnoc(out, b);
    assert pending == hi + lo;
    assert (hi + lo) + todo == hi + (lo + todo);
    assert ByteBits(out) + (hi + (lo + todo)) == (ByteBits(out) + hi) + (lo + todo);
  }

  lemma StreamStep(lengths: seq<nat>, syms: seq<nat>, i: nat)
    requires Symbols(lengths, syms) && i < |syms|
    ensures Stream(lengths, syms[i..]) == CodeBits(lengths, syms[i]) + Stream(lengths, syms[i + 1..])
  {
    assert syms[i..][1..] == syms[i + 1..];
  }

  /** Moves whole bytes from the buffer to the output. */
  method Emit(buffer: nat, count0: nat, out0: seq<nat>, ghost all: seq<bool>, ghost pending0: seq<bool>,
              ghost todo: seq<bool>)
    returns (count: nat, out: seq<nat>, ghost pending: seq<bool>)
    requires count0 == |pending0| && Buffered(buffer, pending0) && Balance(all, out0, pending0, todo)
    requires forall k :: 0 <= k < |out0| ==> out0[k] < 256
    ensures count == |pending| < 8 && Buffered(buffer, pending) && Balance(all, out, pending, todo)
    ensures forall k :: 0 <= k < |out| ==> out[k] < 256
  {
    hide Num, Pow2, Buffered, Balance;
    count, out, pending := count0, out0, pending0;
    while count >= 8
      invariant count == |pending| && Buffered(buffer, pending) && Balance(all, out, pending, todo)
      invariant forall k :: 0 <= k < |out| ==> out[k] < 256
    {
      Top(buffer, pending);
      Drop(buffer, pending, 8);
      var b := buffer / Pow2(count - 8) % 256;
      BalanceByte(all, out, pending, todo, b);
      out := out + [b];
      count := count - 8;
      pending := pending[8..];
    }
  }

  method Pack(t: Tables, syms: seq<nat>, ghost lengths: seq<nat>) returns (out: seq<nat>)
    requires t.BuiltFor(lengths) && Kraft(lengths) && Symbols(lengths, syms)
    ensures Packed(lengths, syms, out) && forall i :: 0 <= i < |out| ==> out[i] < 256
  {
    hide Num, Bits, Pow2, Kraft, Code, Buffered, Balance, ByteBits, Stream, CodeBits, TableAt, EncoderEntry,
         EntryLength, EntryCode, Packed;
    ghost var all := Stream(lengths, syms);
    out := [];
    var buffer: nat, count: nat := 0, 0;
    ghost var pending: seq<bool> := [];
    NothingYet(all);
    assert syms[0..] == syms;
    for i := 0 to |syms|
      invariant count == |pending| < 8 && Buffered(buffer, pending)
      invariant Balance(all, out, pending, Stream(lengths, syms[i..]))
      invariant forall k :: 0 <= k < |out| ==> out[k] < 256
    {
      var entry := t.encoder[syms[i]];
      EntryParts(lengths, syms[i]);
      var l, code := EntryLength(entry), EntryCode(entry);
      PushCode(lengths, syms, i, all, out, pending, buffer);
      buffer := (buffer * Pow2(l) + code) % U64;
      count, out, pending :=
        Emit(buffer, count + l, out, all, pending + CodeBits(lengths, syms[i]), Stream(lengths, syms[i + 1..]));
    }
    NothingLeft(lengths, syms);
    if count > 0 {
      var b := buffer * Pow2(8 - count) % U64 % 256;
      LastByte(lengths, syms, out, pending, buffer, b);
      out := out + [b];
    } else {
      NoLastByte(lengths, syms, out, pending);
    }
  }

  lemma PushCode(lengths: seq<nat>, syms: seq<nat>, i: nat, all: seq<bool>, out: seq<nat>, pending: seq<bool>,
                 buffer: nat)
    requires Symbols(lengths, syms) && Kraft(lengths) && i < |syms| && |pending| < 8 && Buffered(buffer, pending)
    requires Balance(all, out, pending, Stream(lengths, syms[i..]))
    ensures var s := syms[i];
      && Buffered((buffer * Pow2(lengths[s]) + Code(lengths, s)) % U64, pending + CodeBits(lengths, s))
      && Balance(all, out, pending + CodeBits(lengths, s), Stream(lengths, syms[i + 1..]))
  {
    hide Num, Bits, Pow2, Kraft, Code, Buffered, Balance, Stream, EncoderEntry;
    EntryParts(lengths, syms[i]);
    StreamStep(lengths, syms, i);
    Push(buffer, pending, Code(lengths, syms[i]), lengths[syms[i]]);
    BalanceCode(all, out, pending, CodeBits(lengths, syms[i]), Stream(lengths, syms[i + 1..]));
  }

  lemma NothingYet(all: seq<bool>)
    ensures Balance(all, [], [], all) && Buffered(0, [])
  {
    assert [] + ([] + all) == all;
  }

  lemma NothingLeft(lengths: seq<nat>, syms: seq<nat>)
    requires Symbols(lengths, syms)
    ensures Stream(lengths, syms[|syms|..]) == []
  {
  }

  /** The bits left over are filled up with zeros from the right. */
  lemma LastByte(lengths: seq<nat>, syms: seq<nat>, out: seq<nat>, pending: seq<bool>, buffer: nat, b: nat)
    requires Symbols(lengths, syms) && Balance(Stream(lengths, syms), out, pending, []) && 0 < |pending| < 8
    requires Buffered(buffer, pending) && b == buffer * Pow2(8 - |pending|) % U64 % 256
    ensures Packed(lengths, syms, out + [b])
  {
    hide Num, Bits, Pow2, Stream, ByteBits, Padding, Buffered;
    var n := 8 - |pending|;
    PaddingBits(n);
    LastByteBits(pending, buffer, b);
    ByteBitsSnoc(out, b);
    FillUp(Stream(lengths, syms), ByteBits(out), pending, Padding(n));
  }

  lemma FillUp(all: seq<bool>, a: seq<bool>, b: seq<bool>, c: seq<bool>)
    requires all == a + (b + [])
    ensures a + (b + c) == all + c
  {
    assert b + [] == b;
    assert (a + b) + c == a + (b + c);
  }

  lemma LastByteBits(pending: seq<bool>, buffer: nat, b: nat)
    requires 0 < |pending| < 8 && Buffered(buffer, pending) && b == buffer * Pow2(8 - |pending|) % U64 % 256
    ensures Bits(b, 8) == pending + Bits(0, 8 - |pending|)
  {
    hide Num, Bits, Pow2;
    var n := 8 - |pending|;
    Push(buffer, pending, 0, n);
    PowWindow();
    BitsNum(pending + Bits(0, n));
  }

  lemma NoLastByte(lengths: seq<nat>, syms: seq<nat>, out: seq<nat>, pending: seq<bool>)
    requires Symbols(lengths, syms) && Balance(Stream(lengths, syms), out, pending, []) && pending == []
    ensures Packed(lengths, syms, out)
  {
    hide Stream, ByteBits;
    var bits := ByteBits(out);
    assert bits + ([] + []) == bits;
    assert Stream(lengths, syms) + Padding(0) == Stream(lengths, syms);
  }

  // --- Decoding ---------------------------------------------------------------------------

  /** What the window of eight bits says about the next symbol. */
  lemma WindowShort(lengths: seq<nat>, s: nat, hi: seq<bool>, tail: seq<bool>)
    requires Kraft(lengths) && s < |lengths| && 0 < lengths[s] <= 8
    requires |hi| == 8 && hi == CodeBits(lengths, s) + tail
    ensures TableAt(lengths, |lengths|, Num(hi)) == ForestEntry(s, lengths[s])
  {
    hide Num, Bits, Pow2, Kraft, Code, TableAt;
    CodeFits(lengths, s);
    NumConcat(CodeBits(lengths, s), tail);
    NumBits(Code(lengths, s), lengths[s]);
    BitsNum(tail);
    DivUnique(Num(hi), Pow2(8 - lengths[s]), Code(lengths, s), Num(tail));
    TableMeaning(lengths, |lengths|, Num(hi), s);
  }

  /** A code longer than the window leads to an empty entry. */
  lemma WindowLong(lengths: seq<nat>, s: nat, hi: seq<bool>, tail: seq<bool>)
    requires Kraft(lengths) && s < |lengths| && lengths[s] > 8 && |hi| == 8 && CodeBits(lengths, s) == hi + tail
    ensures TableAt(lengths, |lengths|, Num(hi)) == 0
  {
    hide Num, Bits, Pow2, Code, TableAt, KraftSum;
    var w := Num(hi);
    CodeFits(lengths, s);
    NumConcat(hi, tail);
    NumBits(Code(lengths, s), lengths[s]);
    BitsNum(tail);
    DivUnique(Code(lengths, s), Pow2(lengths[s] - 8), w, Num(tail));
    forall t | 0 <= t < |lengths|
      ensures !Matches(lengths, t, w)
    {
      if 0 < lengths[t] <= 8 {
        NoShorter(lengths, t, s, w);
      }
    }
    TableEmpty(lengths, |lengths|, w);
  }

  lemma NoShorter(lengths: seq<nat>, t: nat, s: nat, w: nat)
    requires Kraft(lengths) && s < |lengths| && t < |lengths| && 0 < lengths[t] <= 8 < lengths[s]
    requires w == Code(lengths, s) / Pow2(lengths[s] - 8)
    ensures !Matches(lengths, t, w)
  {
    hide Pow2, Code, Kraft;
    PrefixFree(lengths, t, s);
    Pow2Add(lengths[s] - 8, 8 - lengths[t]);
    DivDiv(Code(lengths, s), Pow2(lengths[s] - 8), Pow2(8 - lengths[t]));
  }

  lemma {:induction false} TableSource(lengths: seq<nat>, n: nat, w: nat)
    requires n <= |lengths|
    ensures TableAt(lengths, n, w) == 0 ||
      exists s :: 0 <= s < n && Matches(lengths, s, w) && TableAt(lengths, n, w) == ForestEntry(s, lengths[s])
  {
    hide Matches;
    if n > 0 && !Matches(lengths, n - 1, w) {
      TableSource(lengths, n - 1, w);
    }
  }

  /** The zero bits that fill up the last byte. */
  ghost function PadOf(lengths: seq<nat>, syms: seq<nat>): nat
    requires Symbols(lengths, syms)
  {
    (8 - |Stream(lengths, syms)| % 8) % 8
  }

  /** From symbol `i` on there are too few bits to fill the window. */
  ghost predicate Starved(lengths: seq<nat>, syms: seq<nat>, i: nat)
    requires Symbols(lengths, syms) && i <= |syms|
  {
    |Stream(lengths, syms[i..])| + PadOf(lengths, syms) < 8
  }

  /** Symbol `i` comes out right: its code fits the window and, with too few bits left, is zero. */
  ghost predicate Survives(lengths: seq<nat>, syms: seq<nat>, i: nat)
    requires Symbols(lengths, syms) && i < |syms|
  {
    lengths[syms[i]] <= 8 && (Starved(lengths, syms, i) ==> Code(lengths, syms[i]) == 0)
  }

  /** The streams that decode to what was packed. */
  ghost predicate Decodable(lengths: seq<nat>, syms: seq<nat>)
    requires Symbols(lengths, syms)
  {
    forall i :: 0 <= i < |syms| ==> Survives(lengths, syms, i)
  }

  lemma {:induction false} StreamLength(lengths: seq<nat>, syms: seq<nat>)
    requires Symbols(lengths, syms) && forall i :: 0 <= i < |lengths| ==> lengths[i] == 0 || lengths[i] >= 7
    ensures |Stream(lengths, syms)| >= 7 * |syms|
    ensures |syms| == 1 ==> |Stream(lengths, syms)| == lengths[syms[0]]
  {
    hide CodeBits;
    if syms != [] {
      StreamLength(lengths, syms[1..]);
    }
  }

  /** What is pending and unread is what is left of the stream, and its padding. */
  ghost predicate Ahead(lengths: seq<nat>, syms: seq<nat>, i: nat, pending: seq<bool>, unread: seq<nat>, pad: nat)
    requires Symbols(lengths, syms)
  {
    i <= |syms| && pending + ByteBits(unread) == Stream(lengths, syms[i..]) + Padding(pad)
  }

  lemma ReadByte(lengths: seq<nat>, syms: seq<nat>, i: nat, pending: seq<bool>, unread: seq<nat>, pad: nat)
    requires Symbols(lengths, syms) && Ahead(lengths, syms, i, pending, unread, pad) && unread != []
    ensures Ahead(lengths, syms, i, pending + Bits(unread[0], 8), unread[1..], pad)
  {
    hide Bits, Stream;
    assert (pending + Bits(unread[0], 8)) + ByteBits(unread[1..])
      == pending + (Bits(unread[0], 8) + ByteBits(unread[1..]));
  }

  /** The window is full: it starts the next code, or is started by it. */
  lemma FullWindow(lengths: seq<nat>, syms: seq<nat>, i: nat, pending: seq<bool>, unread: seq<nat>, pad: nat)
    requires Symbols(lengths, syms) && Kraft(lengths) && i < |syms| && Ahead(lengths, syms, i, pending, unread, pad)
      && |pending| >= 8
    ensures var s := syms[i]; var w := TableAt(lengths, |lengths|, Num(pending[..8]));
      if lengths[s] <= 8 then
        w == ForestEntry(s, lengths[s]) && Ahead(lengths, syms, i + 1, pending[lengths[s]..], unread, pad)
      else w == 0
  {
    hide Num, Bits, Pow2, Code, TableAt, Kraft, Stream, ByteBits, CodeBits;
    var s := syms[i];
    var l, rest := lengths[s], Stream(lengths, syms[i + 1..]) + Padding(pad);
    StreamStep(lengths, syms, i);
    assert pending + ByteBits(unread) == CodeBits(lengths, s) + rest;
    SamePrefix(pending, ByteBits(unread), CodeBits(lengths, s), rest);
    if l <= 8 {
      assert pending[..8] == CodeBits(lengths, s) + pending[l..8];
      WindowShort(lengths, s, pending[..8], pending[l..8]);
    } else {
      assert CodeBits(lengths, s)[..8] == pending[..8];
      assert CodeBits(lengths, s) == pending[..8] + CodeBits(lengths, s)[8..];
      WindowLong(lengths, s, pending[..8], CodeBits(lengths, s)[8..]);
    }
  }

  lemma SamePrefix(a: seq<bool>, b: seq<bool>, c: seq<bool>, d: seq<bool>)
    requires a + b == c + d
    ensures |c| <= |a| ==> a[..|c|] == c && a[|c|..] + b == d
    ensures forall n :: 0 <= n <= |a| && n <= |c| ==> a[..n] == c[..n]
  {
    assert forall k :: 0 <= k < |a| ==> (a + b)[k] == a[k];
    assert forall k :: 0 <= k < |c| ==> (c + d)[k] == c[k];
    if |c| <= |a| {
      assert a == c + a[|c|..];
      assert (a + b)[|c|..] == a[|c|..] + b;
      assert (c + d)[|c|..] == d;
    }
  }

  lemma AheadLength(lengths: seq<nat>, syms: seq<nat>, i: nat, pending: seq<bool>, unread: seq<nat>, pad: nat)
    requires Symbols(lengths, syms) && Ahead(lengths, syms, i, pending, unread, pad)
    ensures i <= |syms| && |pending| + 8 * |unread| == |Stream(lengths, syms[i..])| + pad
  {
    hide Stream, ByteBits, Padding;
    assert |pending + ByteBits(unread)| == |Stream(lengths, syms[i..]) + Padding(pad)|;
  }

  lemma PackedLength(bytes: seq<nat>, stream: seq<bool>, pad: nat)
    requires ByteBits(bytes) == stream + Padding(pad)
    ensures 8 * |bytes| == |stream| + pad
  {
    hide ByteBits, Padding;
  }

  /** With the window empty the decoder takes the entry of code zero. */
  lemma ZeroWindow(lengths: seq<nat>, s: nat)
    requires Kraft(lengths) && s < |lengths| <= 256 && 0 < lengths[s] <= 8
    ensures var e := TableAt(lengths, |lengths|, 0);
      if Code(lengths, s) == 0 then e == ForestEntry(s, lengths[s]) else Consumed(e) == 0 || Literal(e) != s
  {
    hide Code, Kraft, TableAt;
    if Code(lengths, s) == 0 {
      TableMeaning(lengths, |lengths|, 0, s);
    } else {
      TableSource(lengths, |lengths|, 0);
      var e := TableAt(lengths, |lengths|, 0);
      if e != 0 {
        var t :| 0 <= t < |lengths| && Matches(lengths, t, 0) && e == ForestEntry(t, lengths[t]);
        assert t != s;
        assert Literal(e) == t;
      }
    }
  }

  /** Reads bytes until the window can be filled or none are left. `good` says that the state still stands for the
      symbols.
   */
  method Fill(src: seq<nat>, at0: nat, buffer0: nat, count0: nat, ghost good: bool,
              ghost lengths: seq<nat>, ghost syms: seq<nat>, ghost i: nat, ghost pad: nat, ghost pending0: seq<bool>)
    returns (at: nat, buffer: nat, count: nat, ghost pending: seq<bool>)
    requires Symbols(lengths, syms) && at0 <= |src| && count0 < 256 && buffer0 < U64
    requires forall k :: 0 <= k < |src| ==> src[k] < 256
    requires good ==>
      count0 == |pending0| < 16 && Buffered(buffer0, pending0) && Ahead(lengths, syms, i, pending0, src[at0..], pad)
    ensures at <= |src| && count < 256 && buffer < U64 && (count >= 8 || at == |src|)
    ensures good ==>
      count == |pending| < 16 && Buffered(buffer, pending) && Ahead(lengths, syms, i, pending, src[at..], pad)
  {
    hide Num, Bits, Pow2, Buffered, Ahead;
    at, buffer, count, pending := at0, buffer0, count0, pending0;
    while count < 8 && at < |src|
      invariant at <= |src| && count < 256 && buffer < U64
      invariant good ==>
        count == |pending| < 16 && Buffered(buffer, pending) && Ahead(lengths, syms, i, pending, src[at..], pad)
      decreases |src| - at
    {
      PowWindow();
      if good {
        Push(buffer, pending, src[at], 8);
        ReadByte(lengths, syms, i, pending, src[at..], pad);
        assert src[at..][0] == src[at] && src[at..][1..] == src[at + 1..];
      }
      buffer := (buffer * Pow2(8) + src[at]) % U64;
      pending := pending + Bits(src[at], 8);
      count := count + 8;
      at := at + 1;
    }
  }

  /** A buffer shifted down by more than its width is empty. */
  lemma ShiftedOut(buffer: nat, n: nat)
    requires buffer < U64 && n >= 64
    ensures buffer / Pow2(n) == 0
  {
    hide Pow2;
    U64IsPow2();
    Pow2Add(64, n - 64);
    TimesAtLeast(Pow2(64), Pow2(n - 64));
    DivUnique(buffer, Pow2(n), 0, buffer);
  }

  /** Decodes as many symbols as were packed. The result is what was packed exactly for the decodable streams. The bit
      count is a byte and wraps, so that a window that cannot be filled is shifted out and reads as zero.
   */
  method Unpack(t: Tables, src: seq<nat>, n: nat, ghost lengths: seq<nat>, ghost syms: seq<nat>)
    returns (r: Option<seq<nat>>)
    requires t.BuiltFor(lengths) && Kraft(lengths) && Symbols(lengths, syms) && n == |syms|
    requires Packed(lengths, syms, src) && forall k :: 0 <= k < |src| ==> src[k] < 256
    ensures r == Some(syms) <==> Decodable(lengths, syms)
  {
    hide Num, Bits, Pow2, Kraft, Code, Buffered, Ahead, ByteBits, Stream, CodeBits, TableAt, Survives, Consumed,
         Literal, ForestEntry, EncoderEntry, Padding, PadOf;
    ghost var pad: nat :| pad < 8 && ByteBits(src) == Stream(lengths, syms) + Padding(pad);
    PadIs(lengths, syms, src, pad);
    var at: nat, buffer: nat, count: nat := 0, 0, 0;
    ghost var pending: seq<bool>, good := [], true;
    var out: seq<nat> := [];
    AheadStart(lengths, syms, src, pad);
    assert src[0..] == src;
    for i := 0 to n
      invariant |out| == i && at <= |src| && count < 256 && buffer < U64
      invariant good ==> out == syms[..i] && forall k :: 0 <= k < i ==> Survives(lengths, syms, k)
      invariant good ==>
        count == |pending| < 16 && Buffered(buffer, pending) && Ahead(lengths, syms, i, pending, src[at..], pad)
      invariant !good ==> !Decodable(lengths, syms) && exists k :: 0 <= k < i && out[k] != syms[k]
    {
      at, buffer, count, pending := Fill(src, at, buffer, count, good, lengths, syms, i, pad, pending);
      var window := buffer / Pow2((count - 8) % 256) % 256;
      var entry := t.forest[window];
      if good {
        if count >= 8 {
          Top(buffer, pending);
          FullStep(lengths, syms, i, pending, src[at..], pad);
        } else {
          ShiftedOut(buffer, (count - 8) % 256);
          assert src[at..] == [];
          StarvedStep(lengths, syms, i, pending, pad);
        }
        Drop(buffer, pending, if lengths[syms[i]] <= |pending| then lengths[syms[i]] else 0);
        good := Survives(lengths, syms, i);
      }
      if Consumed(entry) == 0 {
        return None;
      }
      out := out + [Literal(entry)];
      assert syms[..i + 1] == syms[..i] + [syms[i]];
      pending := if good then pending[lengths[syms[i]]..] else [];
      count := (count - Consumed(entry)) % 256;
    }
    assert syms[..n] == syms;
    r := Some(out);
  }

  lemma PadIs(lengths: seq<nat>, syms: seq<nat>, src: seq<nat>, pad: nat)
    requires Symbols(lengths, syms) && pad < 8 && ByteBits(src) == Stream(lengths, syms) + Padding(pad)
    ensures pad == PadOf(lengths, syms)
  {
    hide ByteBits, Padding, Stream;
    PackedLength(src, Stream(lengths, syms), pad);
  }

  lemma AheadStart(lengths: seq<nat>, syms: seq<nat>, src: seq<nat>, pad: nat)
    requires Symbols(lengths, syms) && ByteBits(src) == Stream(lengths, syms) + Padding(pad)
    ensures Ahead(lengths, syms, 0, [], src, pad) && Buffered(0, [])
  {
    hide Stream, ByteBits;
    assert syms[0..] == syms;
    assert [] + ByteBits(src) == ByteBits(src);
  }

  /** A step with a full window: the next symbol is decoded, or its code is too long. */
  lemma FullStep(lengths: seq<nat>, syms: seq<nat>, i: nat, pending: seq<bool>, unread: seq<nat>, pad: nat)
    requires Symbols(lengths, syms) && Kraft(lengths) && i < |syms| && Ahead(lengths, syms, i, pending, unread, pad)
      && |pending| >= 8
    requires pad == PadOf(lengths, syms)
    ensures var s := syms[i]; var e := TableAt(lengths, |lengths|, Num(pending[..8]));
      if Survives(lengths, syms, i) then
        && Consumed(e) == lengths[s] > 0 && Literal(e) == s && lengths[s] <= |pending|
        && Ahead(lengths, syms, i + 1, pending[lengths[s]..], unread, pad)
      else Consumed(e) == 0
  {
    hide Num, Bits, Pow2, Code, TableAt, Kraft, Stream, ByteBits, CodeBits, Ahead, Padding, Consumed, Literal,
         ForestEntry, PadOf;
    if lengths[syms[i]] <= 8 {
      EntryFields(syms[i], lengths[syms[i]]);
    }
    ZeroEntry();
    FullWindow(lengths, syms, i, pending, unread, pad);
    AheadLength(lengths, syms, i, pending, unread, pad);
  }

  /** A step with a window that cannot be filled: the symbol comes out right only if its code is zero. */
  lemma StarvedStep(lengths: seq<nat>, syms: seq<nat>, i: nat, pending: seq<bool>, pad: nat)
    requires Symbols(lengths, syms) && Kraft(lengths) && i < |syms| && Ahead(lengths, syms, i, pending, [], pad)
      && |pending| < 8
    requires pad == PadOf(lengths, syms)
    ensures var s := syms[i]; var e := TableAt(lengths, |lengths|, 0);
      if Survives(lengths, syms, i) then
        && Consumed(e) == lengths[s] > 0 && Literal(e) == s && lengths[s] <= |pending|
        && Ahead(lengths, syms, i + 1, pending[lengths[s]..], [], pad)
      else Consumed(e) == 0 || Literal(e) != s
  {
    hide Num, Bits, Pow2, Code, TableAt, Kraft, Stream, ByteBits, CodeBits, Ahead, Padding, Consumed, Literal,
         ForestEntry, PadOf;
    AheadLength(lengths, syms, i, pending, [], pad);
    NextCode(lengths, syms, i, pending, [], pad);
    ZeroWindow(lengths, syms[i]);
    EntryFields(syms[i], lengths[syms[i]]);
  }

  /** The next code stands first, as far as it is in the buffer. */
  lemma NextCode(lengths: seq<nat>, syms: seq<nat>, i: nat, pending: seq<bool>, unread: seq<nat>, pad: nat)
    requires Symbols(lengths, syms) && i < |syms| && Ahead(lengths, syms, i, pending, unread, pad)
    ensures var l := lengths[syms[i]];
      && l <= |Stream(lengths, syms[i..])|
      && (l <= |pending| ==>
            pending[..l] == CodeBits(lengths, syms[i]) && Ahead(lengths, syms, i + 1, pending[l..], unread, pad))
  {
    hide Stream, ByteBits, CodeBits, Padding;
    var s := syms[i];
    var rest := Stream(lengths, syms[i + 1..]);
    StreamStep(lengths, syms, i);
    ConcatAssoc(CodeBits(lengths, s), rest, Padding(pad));
    SamePrefix(pending, ByteBits(unread), CodeBits(lengths, s), rest + Padding(pad));
  }

  lemma ZeroEntry()
    ensures Consumed(0) == 0
  {
  }

  lemma EntryFields(s: nat, l: nat)
    requires l < 256
    ensures Consumed(ForestEntry(s, l)) == l && Literal(ForestEntry(s, l)) == s
  {
  }

  // --- The code that is shipped -----------------------------------------------------------

  const SPACE: nat := 32

  predicate Between(ch: nat, lo: nat, n: nat) { lo <= ch < lo + n }

  /** Small letters, digits and the space: 7 bits. Capitals, quote, underscore and colon: 8. Everything else: 9. */
  function LengthOf(ch: nat): nat {
    if Between(ch, 97, 26) || Between(ch, 48, 10) || ch == SPACE then 7
    else if Between(ch, 65, 26) || ch == 34 || ch == 95 || ch == 58 then 8
    else 9
  }

  function Shipped(): (lengths: seq<nat>)
    ensures |lengths| == 256 && forall ch :: 0 <= ch < 256 ==> lengths[ch] == LengthOf(ch)
  {
    seq(256, ch requires 0 <= ch < 256 => LengthOf(ch))
  }

  function Clamp(n: nat, lo: nat, width: nat): nat { if n <= lo then 0 else if n >= lo + width then width else n - lo }

  /** The space the first `n` characters take. */
  function SpaceUpTo(n: nat): nat {
    128 * n + 384 * (Clamp(n, 32, 1) + Clamp(n, 48, 10) + Clamp(n, 97, 26))
    + 128 * (Clamp(n, 34, 1) + Clamp(n, 58, 1) + Clamp(n, 65, 26) + Clamp(n, 95, 1))
  }

  lemma Weights()
    ensures Weight(7) == 512 && Weight(8) == 256 && Weight(9) == 128 && Pow2(MAX_LEN) == 65536
  {
    PowWindow();
    Pow2Add(8, 8);
    assert Pow2(7) == 128 && Pow2(9) == 512;
  }

  lemma {:induction false} ShippedSpace(n: nat)
    requires n <= 256
    ensures KraftSum(Shipped()[..n]) == SpaceUpTo(n)
  {
    hide Weight, Shipped, SpaceUpTo, LengthOf;
    if n > 0 {
      ShippedSpace(n - 1);
      assert Shipped()[..n][..n - 1] == Shipped()[..n - 1];
      NextSpace(n - 1);
    } else {
      NoSpace();
    }
  }

  lemma NoSpace()
    ensures SpaceUpTo(0) == 0
  {
  }

  lemma NextSpace(ch: nat)
    ensures SpaceUpTo(ch + 1) == SpaceUpTo(ch) + Weight(LengthOf(ch))
  {
    hide Weight, Clamp;
    Weights();
    ClampStep(ch, 32, 1);
    ClampStep(ch, 48, 10);
    ClampStep(ch, 97, 26);
    ClampStep(ch, 34, 1);
    ClampStep(ch, 58, 1);
    ClampStep(ch, 65, 26);
    ClampStep(ch, 95, 1);
  }

  lemma ClampStep(ch: nat, lo: nat, width: nat)
    ensures Clamp(ch + 1, lo, width) == Clamp(ch, lo, width) + if Between(ch, lo, width) then 1 else 0
  {
  }

  lemma ShippedKraft()
    ensures Kraft(Shipped()) && forall ch :: 0 <= ch < 256 ==> Shipped()[ch] >= 7
  {
    hide Shipped, KraftSum;
    ShippedSpace(256);
    assert Shipped()[..256] == Shipped();
    Weights();
  }

  lemma {:induction false} CountNone(lengths: seq<nat>, l: nat)
    requires forall s :: 0 <= s < |lengths| ==> lengths[s] != l
    ensures Count(lengths, l) == 0
  {
    if lengths != [] {
      CountNone(lengths[..|lengths| - 1], l);
    }
  }

  lemma {:induction false} NoShortCodes(l: nat)
    requires l <= 7
    ensures FirstCode(Shipped(), l) == 0
  {
    hide Shipped, Count;
    if l > 0 {
      NoShortCodes(l - 1);
      CountNone(Shipped(), l - 1);
    }
  }

  /** Of the characters with seven bits the space has code zero, and only the space. */
  lemma SpaceIsZero(ch: nat)
    requires ch < 256 && LengthOf(ch) == 7
    ensures Code(Shipped(), ch) == 0 <==> ch == SPACE
  {
    hide Shipped, Count, FirstCode;
    NoShortCodes(7);
    CountNone(Shipped()[..SPACE], 7);
    if ch != SPACE {
      CountPrefix(Shipped(), SPACE, ch, 7);
    }
  }

  /** The text ends, on a byte boundary, with a seven-bit character. */
  ghost predicate EndsShort(text: seq<nat>)
    requires Symbols(Shipped(), text)
  {
    text != [] && LengthOf(text[|text| - 1]) == 7 && |Stream(Shipped(), text)| % 8 == 0
  }

  /** With codes of seven bits and more only the last symbol can be starved. */
  lemma OnlyLastStarved(text: seq<nat>, i: nat)
    requires Symbols(Shipped(), text) && i < |text|
    ensures Starved(Shipped(), text, i) <==> i == |text| - 1 && EndsShort(text)
  {
    hide Shipped, Stream, LengthOf;
    ShippedKraft();
    StreamLength(Shipped(), text[i..]);
    if i == |text| - 1 {
      assert text[i..][0] == text[i];
    }
  }

  /** With the shipped code, a text comes back exactly when it has no nine-bit character and does not end, on a byte
      boundary, with a seven-bit character other than the space.
   */
  lemma ShippedDecodable(text: seq<nat>)
    requires forall i :: 0 <= i < |text| ==> text[i] < 256
    ensures Symbols(Shipped(), text)
    ensures Decodable(Shipped(), text) <==>
      && (forall i :: 0 <= i < |text| ==> LengthOf(text[i]) <= 8)
      && (EndsShort(text) ==> text[|text| - 1] == SPACE)
  {
    hide Shipped, Code, Stream, Kraft, Starved, LengthOf;
    ShippedKraft();
    assert Symbols(Shipped(), text);
    forall i | 0 <= i < |text|
      ensures Survives(Shipped(), text, i) <==>
        LengthOf(text[i]) <= 8 && (i == |text| - 1 && EndsShort(text) ==> text[i] == SPACE)
    {
      OnlyLastStarved(text, i);
      if LengthOf(text[i]) == 7 {
        SpaceIsZero(text[i]);
      }
    }
  }

  /** Building the shipped tables, packing a text and decoding it again. */
  method PackThenUnpack(t: Tables, text: seq<nat>) returns (r: Option<seq<nat>>)
    requires t.Valid() && forall i :: 0 <= i < |text| ==> text[i] < 256
    modifies t.encoder, t.forest
    ensures Symbols(Shipped(), text)
    ensures r == Some(text) <==>
      && (forall i :: 0 <= i < |text| ==> LengthOf(text[i]) <= 8)
      && (EndsShort(text) ==> text[|text| - 1] == SPACE)
  {
    hide Shipped, Code, Stream, Kraft, Decodable, EndsShort, LengthOf, Packed, TableAt;
    ShippedKraft();
    ShippedDecodable(text);
    ShippedWithin();
    t.BuildDynamicForest(Shipped());
    var bytes := Pack(t, text, Shipped());
    r := Unpack(t, bytes, |text|, Shipped(), text);
  }

  lemma ShippedWithin()
    ensures forall ch :: 0 <= ch < 256 ==> Shipped()[ch] <= MAX_LEN
  {
  }
}
