/** Repetitions in the input, and what literals and matches say about it. */
module Lz77 {
  import opened Prelude
  import opened Inflate

  // The len bytes at p repeat those d bytes earlier.
  ghost predicate Repeats(s: seq<byte>, p: nat, len: nat, d: nat) {
    1 <= d <= p && p + len <= |s| && forall j :: p <= j < p + len ==> s[j] == s[j - d]
  }

  // After the bytes before from, the symbols say exactly the bytes from from to to.
  ghost predicate Says(s: seq<byte>, from: nat, syms: seq<Symbol>, to: nat) {
    from <= to <= |s| && Expand(s[..from], syms) == Some(s[..to])
  }

  lemma {:induction false} CopyRepeats(s: seq<byte>, p: nat, len: nat, d: nat)
    requires Repeats(s, p, len, d)
    ensures Copy(s[..p], len, d) == s[..p + len]
    decreases len
  {
    if len > 0 {
      assert s[p] == s[p - d];
      assert s[..p] + [s[p]] == s[..p + 1];
      CopyRepeats(s, p + 1, len - 1, d);
    }
  }

  lemma {:induction false} ExpandSnoc(out: seq<byte>, syms: seq<Symbol>, sym: Symbol)
    requires Expand(out, syms).Some?
    ensures Expand(out, syms + [sym]) == Expand(Expand(out, syms).value, [sym])
    decreases |syms|
  {
    hide Copy;
    if syms == [] {
      assert syms + [sym] == [sym];
    } else {
      var first, rest := syms[0], syms[1..];
      assert (syms + [sym])[0] == first && (syms + [sym])[1..] == rest + [sym];
      match first {
        case Literal(b) => ExpandSnoc(out + [b], rest, sym);
        case Match(length, distance) => ExpandSnoc(Copy(out, length, distance), rest, sym);
      }
    }
  }

  lemma SaysNothing(s: seq<byte>, from: nat)
    requires from <= |s|
    ensures Says(s, from, [], from)
  {
  }

  lemma SaysLiteral(s: seq<byte>, from: nat, syms: seq<Symbol>, to: nat)
    requires Says(s, from, syms, to) && to < |s|
    ensures Says(s, from, syms + [Literal(s[to])], to + 1)
  {
    var sym := Literal(s[to]);
    ExpandSnoc(s[..from], syms, sym);
    assert s[..to] + [s[to]] == s[..to + 1] && [sym][1..] == [];
  }

  lemma SaysMatch(s: seq<byte>, from: nat, syms: seq<Symbol>, to: nat, len: nat, d: nat)
    requires Says(s, from, syms, to) && Repeats(s, to, len, d)
    ensures Says(s, from, syms + [Match(len, d)], to + len)
  {
    hide Copy;
    var sym := Match(len, d);
    ExpandSnoc(s[..from], syms, sym);
    CopyRepeats(s, to, len, d);
    assert [sym][1..] == [];
  }

  // More input changes nothing about what has been said.
  lemma SaysMore(s: seq<byte>, more: seq<byte>, from: nat, syms: seq<Symbol>, to: nat)
    requires Says(s, from, syms, to)
    ensures Says(s + more, from, syms, to)
  {
    assert (s + more)[..from] == s[..from] && (s + more)[..to] == s[..to];
  }

  lemma RepeatsMore(s: seq<byte>, more: seq<byte>, p: nat, len: nat, d: nat)
    requires Repeats(s, p, len, d)
    ensures Repeats(s + more, p, len, d)
  {
  }

  // ---- what is said without the oldest history ----

  lemma {:induction false} CopyAfter(pre: seq<byte>, out: seq<byte>, length: nat, distance: nat)
    requires 1 <= distance <= |out|
    ensures Copy(pre + out, length, distance) == pre + Copy(out, length, distance)
    decreases length
  {
    if length > 0 {
      var b := out[|out| - distance];
      assert (pre + out)[|pre + out| - distance] == b && pre + out + [b] == pre + (out + [b]);
      CopyAfter(pre, out + [b], length - 1, distance);
    }
  }

  // More history before changes nothing.
  lemma {:induction false} ExpandAfter(pre: seq<byte>, out: seq<byte>, syms: seq<Symbol>)
    requires Expand(out, syms).Some?
    ensures Expand(pre + out, syms) == Some(pre + Expand(out, syms).value)
    decreases |syms|
  {
    hide Copy;
    if syms != [] {
      match syms[0] {
        case Literal(b) =>
          assert pre + out + [b] == pre + (out + [b]);
          ExpandAfter(pre, out + [b], syms[1..]);
        case Match(length, distance) =>
          CopyAfter(pre, out, length, distance);
          ExpandAfter(pre, Copy(out, length, distance), syms[1..]);
      }
    }
  }

  // What the symbols say with history from f on they say with history from p on.
  lemma SaysBack(s: seq<byte>, f: nat, p: nat, from: nat, syms: seq<Symbol>, to: nat)
    requires p <= f <= from <= to <= |s| && Says(s[f..], from - f, syms, to - f)
    ensures Says(s[p..], from - p, syms, to - p)
  {
    hide Expand;
    var pre := s[p..f];
    assert pre + s[f..][..from - f] == s[p..][..from - p] && pre + s[f..][..to - f] == s[p..][..to - p];
    ExpandAfter(pre, s[f..][..from - f], syms);
  }

  lemma RepeatsFrom(s: seq<byte>, f: nat, p: nat, len: nat, d: nat)
    requires Repeats(s, p, len, d) && f + d <= p
    ensures f <= |s| && Repeats(s[f..], p - f, len, d)
  {
    forall j | p - f <= j < p - f + len
      ensures s[f..][j] == s[f..][j - d]
    {
      assert s[j + f] == s[j + f - d];
    }
  }
}
