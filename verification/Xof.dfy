/** The XOF operation of src/psa_xof.c: input is accumulated in a doubling buffer and
    absorbed once; output comes from a one-block staging buffer and from blocks that
    are squeezed straight into the caller's buffer. */
module Xof {
  import opened Bytes
  import opened CcmStream
  import opened Psa

  datatype Alg = Shake128 | Shake256

  /** The sponge output: byte `i` of what an algorithm yields for a whole input. */
  type Sponge = (Alg, seq<byte>, nat) -> byte

  function BlockSize(alg: Alg): (bs: nat)
    ensures 0 < bs <= 168
  {
    if alg == Shake128 then 168 else 136
  }

  /** `n` bytes of sponge output from position `at` on. */
  function Slice(sponge: Sponge, alg: Alg, input: seq<byte>, at: nat, n: nat): (s: seq<byte>)
    ensures |s| == n
  {
    seq(n, i requires 0 <= i < n => sponge(alg, input, at + i))
  }

  lemma SlicesJoin(sponge: Sponge, alg: Alg, input: seq<byte>, at: nat, m: nat, n: nat)
    ensures Slice(sponge, alg, input, at, m) + Slice(sponge, alg, input, at + m, n) == Slice(sponge, alg, input, at, m + n)
  {
  }

  /** The whole blocks that fit `n` bytes and the word32 range of the backend. */
  lemma DirectBlocks(n: nat, bs: nat)
    requires 0 < bs <= 168 && bs <= n
    ensures var q := Min(n / bs, UINT32_MAX / bs);
            1 <= q && bs <= q * bs <= n && q * bs <= UINT32_MAX
  {
    var q := Min(n / bs, UINT32_MAX / bs);
    MulMonotonic(1, q, bs);
    MulMonotonic(q, n / bs, bs);
    MulMonotonic(q, UINT32_MAX / bs, bs);
    Quotient(n, bs);
    Quotient(UINT32_MAX, bs);
  }

  lemma Quotient(n: nat, d: nat)
    requires d > 0
    ensures n / d * d <= n
    ensures d <= n ==> 1 <= n / d
  {
    assert n == d * (n / d) + n % d;
    if n / d == 0 {
      assert n == n % d;
    }
  }

  class XofOperation {
    const sponge: Sponge
    const buf: array<byte>
    var active: bool
    var alg: Alg
    var squeezing: bool
    var bufOff: nat
    var bufLen: nat
    /** The input buffer: its length is the capacity, and an empty array stands for none. */
    var ibuf: array<byte>
    var ibufLen: nat
    /** The sponge state inside wolfCrypt: what was absorbed, and the bytes squeezed so far. */
    var absorbed: seq<byte>
    var squeezed: nat
    /** The input of all successful updates, the bytes delivered, and the absorb calls. */
    ghost var consumed: seq<byte>
    ghost var delivered: nat
    ghost var absorbs: nat

    ghost predicate Valid()
      reads this, buf, ibuf
    {
      && buf.Length == 168 && ibuf != buf
      && (active ==> |consumed| <= UINT32_MAX && if squeezing then Squeezing(delivered) else Absorbing())
    }

    ghost predicate Absorbing()
      reads this, ibuf
    {
      && ibufLen <= ibuf.Length <= UINT32_MAX && ibuf[..ibufLen] == consumed
      && bufOff == bufLen == squeezed == delivered == absorbs == 0
    }

    /** `at` bytes have been delivered; the staging buffer holds the next ones. */
    ghost predicate Squeezing(at: nat)
      reads this, buf
    {
      && buf.Length == 168 && absorbs == 1 && absorbed == consumed
      && bufOff <= bufLen <= BlockSize(alg) && at + (bufLen - bufOff) == squeezed
      && forall i :: bufOff <= i < bufLen ==> buf[i] == sponge(alg, consumed, at + (i - bufOff))
    }

    constructor (sponge: Sponge)
      ensures Valid() && !active && this.sponge == sponge && fresh(buf) && fresh(ibuf)
    {
      this.sponge := sponge;
      buf, ibuf := new byte[168](i => 0), new byte[0](i => 0);
      active, alg, squeezing, bufOff, bufLen, ibufLen := false, Shake128, false, 0, 0, 0;
      absorbed, squeezed, consumed, delivered, absorbs := [], 0, [], 0, 0;
    }

    /** psa_xof_setup for a supported algorithm. */
    method Setup(alg: Alg) returns (status: Status)
      requires Valid()
      modifies this
      ensures Valid() && active
      ensures status == if old(active) then BadState else Success
      ensures if old(active) then unchanged(this) else fresh(ibuf)
      ensures status == Success ==> this.alg == alg && !squeezing && consumed == [] && delivered == 0
    {
      if active {
        return BadState;
      }
      ClearBuffers();
      ClearSponge();
      active, this.alg := true, alg;
      return Success;
    }

    method ClearBuffers()
      modifies `squeezing, `bufOff, `bufLen, `ibuf, `ibufLen, `consumed
      ensures !squeezing && bufOff == bufLen == ibufLen == 0 && consumed == []
      ensures fresh(ibuf) && ibuf.Length == 0
    {
      squeezing, bufOff, bufLen, ibufLen, consumed := false, 0, 0, 0, [];
      ibuf := new byte[0](i => 0);
    }

    method ClearSponge()
      modifies `absorbed, `squeezed, `delivered, `absorbs
      ensures absorbed == [] && squeezed == delivered == absorbs == 0
    {
      absorbed, squeezed, delivered, absorbs := [], 0, 0, 0;
    }

    /** psa_xof_abort */
    method Abort()
      requires buf.Length == 168 && ibuf != buf
      modifies `active
      ensures Valid() && !active
    {
      active := false;
    }

    /** psa_xof_set_context: no supported algorithm has a context. */
    method SetContext(context: seq<byte>) returns (status: Status)
      requires Valid()
      modifies `active
      ensures Valid() && !active
      ensures status == if old(active) then InvalidArgument else BadState
    {
      status := if active then InvalidArgument else BadState;
      Abort();
    }

    lemma NothingDelivered()
      requires Valid() && active && !squeezing
      ensures delivered == 0
    {
    }

    // ----- absorbing -----

    /** psa_xof_ibuf_grow: double until the needed capacity fits, capped at the word32
        range. */
    method Grow(need: nat)
      requires Valid() && active && !squeezing && need <= UINT32_MAX
      modifies `ibuf
      ensures Valid() && need <= ibuf.Length <= UINT32_MAX
      ensures ibuf == old(ibuf) || fresh(ibuf)
      ensures need <= old(ibuf.Length) ==> ibuf == old(ibuf)
    {
      if need <= ibuf.Length {
        return;
      }
      var newCap := if ibuf.Length > 0 then ibuf.Length else 256;
      while newCap < need
        invariant 0 < newCap <= UINT32_MAX
      {
        if newCap > UINT32_MAX / 2 {
          newCap := UINT32_MAX;
          break;
        }
        newCap := newCap * 2;
      }
      var newBuf := new byte[newCap](i => 0);
      CopyInto(newBuf, 0, ibuf[..ibufLen]);
      ibuf := newBuf;
    }

    /** psa_xof_update */
    method Update(input: seq<byte>) returns (status: Status)
      requires Valid()
      modifies `active, `ibuf, `ibufLen, `consumed, ibuf
      ensures Valid()
      ensures status == if !old(active) || old(squeezing) then BadState
                        else if |old(consumed)| + |input| > UINT32_MAX then InvalidArgument
                        else Success
      ensures active == (status == Success)
      ensures status == Success ==> consumed == old(consumed) + input
      ensures ibuf == old(ibuf) || fresh(ibuf)
    {
      if !active || squeezing {
        Abort();
        return BadState;
      }
      if |input| == 0 {
        return Success;
      }
      if |input| > UINT32_MAX {
        Abort();
        return InvalidArgument;
      }
      if |input| > UINT32_MAX - ibufLen {
        Abort();
        return InvalidArgument;
      }
      Grow(ibufLen + |input|);
      CopyInto(ibuf, ibufLen, input);
      ibufLen := ibufLen + |input|;
      consumed := consumed + input;
      return Success;
    }

    /** The single absorb call, and the release of the input buffer. */
    method Absorb()
      requires Valid() && active && !squeezing
      modifies `squeezing, `absorbed, `absorbs, `ibuf, `ibufLen
      ensures Valid() && squeezing && fresh(ibuf)
    {
      absorbed := ibuf[..ibufLen];
      absorbs := absorbs + 1;
      ibuf := new byte[0](i => 0);
      ibufLen := 0;
      squeezing := true;
    }

    // ----- squeezing -----

    /** wc_Shake128_SqueezeBlocks and wc_Shake256_SqueezeBlocks: `blocks` whole blocks,
        whose bytes fit a word32. */
    method SqueezeBlocks(output: array<byte>, at: nat, blocks: nat)
      requires at + blocks * BlockSize(alg) <= output.Length && blocks * BlockSize(alg) <= UINT32_MAX
      modifies output, `squeezed
      ensures squeezed == old(squeezed) + blocks * BlockSize(alg)
      ensures output[..] == old(output[..at]) + Slice(sponge, alg, absorbed, old(squeezed), blocks * BlockSize(alg))
                            + old(output[at + blocks * BlockSize(alg)..])
    {
      var n := blocks * BlockSize(alg);
      CopyInto(output, at, Slice(sponge, alg, absorbed, squeezed, n));
      squeezed := squeezed + n;
    }

    /** What the output holds once `done` of the requested bytes are in place. */
    ghost predicate Served(was: seq<byte>, now: seq<byte>, start: nat, done: nat, n: nat)
      reads this
    {
      && done <= n <= |was| && |now| == |was|
      && now[..done] == Slice(sponge, alg, consumed, start, done)
      && now[n..] == was[n..]
    }

    /** The next `k` bytes of the sponge behind what is served. */
    lemma ServedMore(was: seq<byte>, now: seq<byte>, next: seq<byte>, start: nat, done: nat, k: nat, n: nat)
      requires Served(was, now, start, done, n) && done + k <= n
      requires next == now[..done] + Slice(sponge, alg, consumed, start + done, k) + now[done + k..]
      ensures Served(was, next, start, done + k, n)
    {
      SlicesJoin(sponge, alg, consumed, start, done, k);
      assert next[..done + k] == now[..done] + Slice(sponge, alg, consumed, start + done, k);
      assert next[n..] == now[n..];
    }

    /** Step 1: what the staging buffer still holds. */
    method Drain(output: array<byte>, at: nat, left: nat, ghost start: nat) returns (take: nat)
      requires Squeezing(start) && bufOff < bufLen && 0 < left && at + left <= output.Length && output != buf
      modifies output, `bufOff
      ensures 0 < take <= left && Squeezing(start + take)
      ensures output[..] == old(output[..at]) + Slice(sponge, alg, consumed, start, take) + old(output[at + take..])
      ensures take == left || bufOff == bufLen
    {
      take := Min(left, bufLen - bufOff);
      assert buf[bufOff..bufOff + take] == Slice(sponge, alg, consumed, start, take);
      CopyInto(output, at, buf[bufOff..bufOff + take]);
      bufOff := bufOff + take;
    }

    /** Step 2: whole blocks straight into the output, as many per call as a word32 counts. */
    method Direct(output: array<byte>, at: nat, n: nat, ghost start: nat, ghost was: seq<byte>) returns (done: nat)
      requires at <= n <= output.Length && output != buf && bufOff == bufLen
      requires Squeezing(start + at) && Served(was, output[..], start, at, n)
      modifies output, `squeezed
      ensures at <= done <= n && n - done < BlockSize(alg) && (n - at >= BlockSize(alg) ==> at < done)
      ensures Squeezing(start + done) && Served(was, output[..], start, done, n)
    {
      hide BlockSize;
      done := at;
      while n - done >= BlockSize(alg)
        invariant at <= done <= n && (n - at >= BlockSize(alg) ==> at < done || n - done >= BlockSize(alg))
        invariant Squeezing(start + done) && Served(was, output[..], start, done, n)
        modifies output, `squeezed
      {
        var blocks := Min((n - done) / BlockSize(alg), UINT32_MAX / BlockSize(alg));
        DirectBlocks(n - done, BlockSize(alg));
        ghost var now := output[..];
        SqueezeBlocks(output, done, blocks);
        ServedMore(was, now, output[..], start, done, blocks * BlockSize(alg), n);
        done := done + blocks * BlockSize(alg);
      }
    }

    /** Step 3: one block into the staging buffer. */
    method Refill(ghost start: nat)
      requires Squeezing(start) && bufOff == bufLen
      modifies buf, `squeezed, `bufLen, `bufOff
      ensures Squeezing(start) && bufOff < bufLen
    {
      SqueezeBlocks(buf, 0, 1);
      bufLen := BlockSize(alg);
      bufOff := 0;
    }

    /** The serving loop. */
    method Serve(output: array<byte>, n: nat, ghost start: nat)
      requires Squeezing(start) && n <= output.Length && output != buf
      modifies output, buf, `squeezed, `bufOff, `bufLen
      ensures Squeezing(start + n) && Served(old(output[..]), output[..], start, n, n)
    {
      hide BlockSize;
      ghost var was := output[..];
      var done := 0;
      while done < n
        invariant Squeezing(start + done) && Served(was, output[..], start, done, n)
        decreases n - done, if bufOff < bufLen then 0 else 1
      {
        if bufOff < bufLen {
          ghost var now := output[..];
          var take := Drain(output, done, n - done, start + done);
          ServedMore(was, now, output[..], start, done, take, n);
          done := done + take;
          continue;
        }
        bufOff, bufLen := 0, 0;
        if n - done >= BlockSize(alg) {
          done := Direct(output, done, n, start, was);
          if done == n {
            break;
          }
        }
        Refill(start + done);
      }
    }

    /** psa_xof_output: the next `n` bytes. A request for none leaves the operation
        absorbing. */
    method Output(output: array<byte>, n: nat) returns (status: Status)
      requires Valid() && n <= output.Length && output != buf && output != ibuf
      modifies output, buf, `active, `squeezing, `absorbed, `absorbs, `ibuf, `ibufLen
      modifies `squeezed, `bufOff, `bufLen, `delivered
      ensures Valid()
      ensures status == if old(active) then Success else BadState
      ensures active == old(active)
      ensures ibuf == old(ibuf) || fresh(ibuf)
      ensures active ==> delivered == old(delivered) + n && squeezing == (old(squeezing) || n > 0)
      ensures active ==> absorbs == if squeezing then 1 else 0
      ensures active ==> Served(old(output[..]), output[..], old(delivered), n, n)
      ensures !active ==> output[..] == old(output[..])
    {
      if !active {
        Abort();
        return BadState;
      }
      if n == 0 {
        assert output[..0] == Slice(sponge, alg, consumed, delivered, 0);
        return Success;
      }
      if !squeezing {
        Absorb();
      }
      Serve(output, n, delivered);
      delivered := delivered + n;
      return Success;
    }
  }

  // ----- whole runs -----

  function Sum(requests: seq<nat>): nat {
    if |requests| == 0 then 0 else Sum(requests[..|requests| - 1]) + requests[|requests| - 1]
  }

  lemma SumTake(requests: seq<nat>, i: nat)
    requires i < |requests|
    ensures Sum(requests[..i + 1]) == Sum(requests[..i]) + requests[i]
  {
    assert requests[..i + 1][..i] == requests[..i];
  }

  method AbsorbChunks(op: XofOperation, chunks: seq<seq<byte>>)
    requires op.Valid() && op.active && !op.squeezing && op.consumed == []
    requires |Flatten(chunks)| <= UINT32_MAX
    modifies op`active, op`ibuf, op`ibufLen, op`consumed, op.ibuf
    ensures op.Valid() && op.active && op.consumed == Flatten(chunks)
    ensures op.ibuf == old(op.ibuf) || fresh(op.ibuf)
  {
    var i := 0;
    while i < |chunks|
      invariant 0 <= i <= |chunks|
      invariant op.Valid() && op.active && op.consumed == Flatten(chunks[..i])
      invariant op.ibuf == old(op.ibuf) || fresh(op.ibuf)
    {
      FlattenTake(chunks, i);
      FlattenPrefix(chunks, i + 1);
      var status := op.Update(chunks[i]);
      assert status == Success;
      i := i + 1;
    }
    assert chunks[..i] == chunks;
  }

  method Request(op: XofOperation, n: nat) returns (out: seq<byte>)
    requires op.Valid() && op.active
    modifies op.buf, op`active, op`squeezing, op`absorbed, op`absorbs, op`ibuf, op`ibufLen
    modifies op`squeezed, op`bufOff, op`bufLen, op`delivered
    ensures op.Valid() && op.active && (op.ibuf == old(op.ibuf) || fresh(op.ibuf))
    ensures out == Slice(op.sponge, op.alg, op.consumed, old(op.delivered), n)
    ensures op.delivered == old(op.delivered) + n
  {
    var output := new byte[n](k => 0);
    var status := op.Output(output, n);
    out := output[..n];
  }

  method ServeRequests(op: XofOperation, requests: seq<nat>) returns (outs: seq<seq<byte>>)
    requires op.Valid() && op.active && op.delivered == 0
    modifies op.buf, op`active, op`squeezing, op`absorbed, op`absorbs, op`ibuf, op`ibufLen
    modifies op`squeezed, op`bufOff, op`bufLen, op`delivered
    ensures |outs| == |requests| && forall i :: 0 <= i < |outs| ==> |outs[i]| == requests[i]
    ensures Flatten(outs) == Slice(op.sponge, op.alg, op.consumed, 0, Sum(requests))
  {
    hide Slice, BlockSize;
    outs := [];
    var i := 0;
    while i < |requests|
      invariant 0 <= i == |outs| <= |requests|
      invariant forall j :: 0 <= j < i ==> |outs[j]| == requests[j]
      invariant op.Valid() && op.active
      invariant op.delivered == Sum(requests[..i])
      invariant Flatten(outs) == Slice(op.sponge, op.alg, op.consumed, 0, op.delivered)
    {
      SumTake(requests, i);
      SlicesJoin(op.sponge, op.alg, op.consumed, 0, op.delivered, requests[i]);
      var out := Request(op, requests[i]);
      var next := outs + [out];
      assert next[..i] == outs;
      outs := next;
      i := i + 1;
    }
    assert requests[..i] == requests;
  }

  /** Any chunks in, any requests out: the outputs are consecutive slices of the sponge
      output of the concatenated input. */
  method RunXof(sponge: Sponge, alg: Alg, chunks: seq<seq<byte>>, requests: seq<nat>) returns (outs: seq<seq<byte>>)
    requires |Flatten(chunks)| <= UINT32_MAX
    ensures |outs| == |requests| && forall i :: 0 <= i < |outs| ==> |outs[i]| == requests[i]
    ensures Flatten(outs) == Slice(sponge, alg, Flatten(chunks), 0, Sum(requests))
    ensures forall i :: 0 <= i < |Flatten(outs)| ==> Flatten(outs)[i] == sponge(alg, Flatten(chunks), i)
  {
    hide BlockSize, Sum, Flatten;
    var op := new XofOperation(sponge);
    var status := op.Setup(alg);
    AbsorbChunks(op, chunks);
    op.NothingDelivered();
    outs := ServeRequests(op, requests);
  }
}
