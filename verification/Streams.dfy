/** The stream between the compressor and its caller. */
module Streams {
  import opened Prelude
  import opened BitWriters

  class ZStream {
    var next_in: seq<byte>
    var next_in_index: nat
    var avail_in: nat
    var total_in: nat
    var next_out: array<byte>
    var next_out_index: nat
    var avail_out: nat
    var total_out: nat
    ghost var accepted: seq<byte>    // every byte read from the caller
    ghost var delivered: seq<byte>   // every byte handed to the caller
    ghost var offered: seq<byte>     // every byte the caller has offered
    ghost var taken: seq<byte>       // the bytes the caller took out of earlier output buffers

    // All input is read in order, all output arrives in order, and the accounts move together.
    ghost predicate Valid()
      reads this, next_out
    {
      && next_in_index + avail_in <= |next_in| && next_out_index + avail_out == next_out.Length
      && offered == accepted + next_in[next_in_index..next_in_index + avail_in]
      && delivered == taken + next_out[..next_out_index]
      && total_in == |accepted| && total_out == |delivered|
    }

    // What the caller has been given is what the output side has let go.
    ghost predicate Conserves(out: BitWriter)
      reads this`delivered, out`handed
    {
      delivered == out.handed
    }

    constructor ()
      ensures Valid() && accepted == delivered == offered == taken == [] && avail_in == 0 && fresh(next_out)
    {
      next_in, next_in_index, avail_in, total_in := [], 0, 0, 0;
      next_out := new byte[0];
      next_out_index, avail_out, total_out := 0, 0, 0;
      accepted, delivered, offered, taken := [], [], [], [];
    }

    // The caller offers more input after what is left of the last, and new room for output.
    method Offer(data: seq<byte>, space: nat)
      requires Valid()
      modifies this
      ensures Valid() && avail_in == old(avail_in) + |data| && avail_out == space && next_out_index == 0
      ensures offered == old(offered) + data && taken == old(delivered)
      ensures fresh(next_out) && accepted == old(accepted) && delivered == old(delivered)
    {
      ghost var left := next_in[next_in_index..next_in_index + avail_in];
      assert offered + data == accepted + (left + data);
      taken := delivered;
      offered := offered + data;
      next_in := next_in[next_in_index..next_in_index + avail_in] + data;
      assert next_in[0..|next_in|] == left + data;
      next_in_index := 0;
      avail_in := |next_in|;
      next_out := new byte[space];
      next_out_index, avail_out := 0, space;
    }

    // read_buf: as much input as there is, at most size bytes, to buf[start..].
    method ReadBuf(buf: array<byte>, start: nat, size: nat) returns (len: nat)
      requires Valid() && start + size <= buf.Length && buf != next_out
      modifies this`avail_in, this`next_in_index, this`total_in, this`accepted, buf
      ensures Valid() && len == Min(old(avail_in), size) && avail_in == old(avail_in) - len
      ensures next_in_index == old(next_in_index) + len
      ensures buf[..start] == old(buf[..start]) && buf[start + len..] == old(buf[start + len..])
      ensures buf[start..start + len] == next_in[old(next_in_index)..next_in_index]
      ensures accepted == old(accepted) + buf[start..start + len]
    {
      len := avail_in;
      if len > size {
        len := size;
      }
      if len == 0 {
        return;
      }
      avail_in := avail_in - len;
      var from := next_in[next_in_index..next_in_index + len];
      forall i | 0 <= i < len {
        buf[start + i] := from[i];
      }
      assert buf[start..start + len] == from;
      next_in_index := next_in_index + len;
      total_in := total_in + len;
      accepted := accepted + from;
    }

    // next_out.set(src.subarray(from, from + len), next_out_index), with the accounts.
    method Deliver(src: array<byte>, from: nat, len: nat)
      requires Valid() && len <= avail_out && from + len <= src.Length && src != next_out
      modifies this`next_out_index, this`total_out, this`avail_out, this`delivered, next_out
      ensures Valid() && next_out_index == old(next_out_index) + len && avail_out == old(avail_out) - len
      ensures next_out[old(next_out_index)..next_out_index] == src[from..from + len]
      ensures next_out[..old(next_out_index)] == old(next_out[..next_out_index])
      ensures delivered == old(delivered) + src[from..from + len]
    {
      var at := next_out_index;
      forall i | 0 <= i < len {
        next_out[at + i] := src[from + i];
      }
      assert next_out[at..at + len] == src[from..from + len];
      delivered := delivered + src[from..from + len];
      next_out_index := next_out_index + len;
      total_out := total_out + len;
      avail_out := avail_out - len;
    }

    // flush_pending: as much pending output as the caller has room for.
    method FlushPending(out: BitWriter)
      requires Valid() && out.PendingValid() && Conserves(out) && next_out != out.pending_buf
      modifies this`next_out_index, this`total_out, this`avail_out, this`delivered, next_out, out`pending,
               out`pending_out, out`handed
      ensures Valid() && out.PendingValid() && Conserves(out)
      ensures out.pending == 0 || avail_out == 0
      ensures next_out_index - old(next_out_index) == old(avail_out) - avail_out == old(out.pending) - out.pending
      ensures old(next_out_index) <= next_out_index
      ensures delivered == old(delivered) + next_out[old(next_out_index)..next_out_index]
      ensures next_out[..old(next_out_index)] == old(next_out[..next_out_index])
    {
      var len := out.pending;
      if len > avail_out {
        len := avail_out;
      }
      if len == 0 {
        return;
      }
      Deliver(out.pending_buf, out.pending_out, len);
      out.Release(len);
    }
  }
}
