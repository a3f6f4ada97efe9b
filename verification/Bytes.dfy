/** Byte strings and the slices of them that a read returns. */
module Bytes {
  import opened Collections

  type Byte = b: nat | b < 256 witness 0

  /** The bytes of `c` in `[at, at + n)`, as far as `c` goes. */
  function Slice(c: seq<Byte>, at: nat, n: nat): seq<Byte> {
    if at >= |c| then [] else c[at..Min(at + n, |c|)]
  }

  lemma SliceBytes(c: seq<Byte>, at: nat, n: nat)
    ensures |Slice(c, at, n)| == if at >= |c| then 0 else Min(n, |c| - at)
    ensures forall i :: 0 <= i < |Slice(c, at, n)| ==> Slice(c, at, n)[i] == c[at + i]
  {
  }

  /** `data` put over `c` at `at`; `c` grows when `data` reaches beyond its end, with zeros in between. */
  function Written(c: seq<Byte>, at: nat, data: seq<Byte>): seq<Byte> {
    if data == [] then c
    else if at <= |c| then c[..at] + data + (if at + |data| < |c| then c[at + |data|..] else [])
    else c + seq(at - |c|, _ => 0) + data
  }

  lemma WrittenBytes(c: seq<Byte>, at: nat, data: seq<Byte>)
    ensures |Written(c, at, data)| == if data == [] then |c| else Max(|c|, at + |data|)
    ensures forall i :: 0 <= i < |Written(c, at, data)| ==>
              Written(c, at, data)[i] == if at <= i < at + |data| then data[i - at] else if i < |c| then c[i] else 0
  {
  }

  lemma WrittenTwice(c: seq<Byte>, at: nat, a: seq<Byte>, b: seq<Byte>)
    ensures Written(Written(c, at, a), at + |a|, b) == Written(c, at, a + b)
    ensures at <= |c| ==> at + |a| <= |Written(c, at, a)|
  {
    if a == [] {
      assert a + b == b;
    } else if b == [] {
      assert a + b == a;
    } else {
      hide Written;
      WrittenBytes(c, at, a);
      WrittenBytes(c, at, a + b);
      WrittenBytes(Written(c, at, a), at + |a|, b);
    }
  }

  /** What was written is read back from the same place. */
  lemma WrittenSlice(c: seq<Byte>, at: nat, data: seq<Byte>)
    ensures Slice(Written(c, at, data), at, |data|) == data
  {
    hide Slice, Written;
    WrittenBytes(c, at, data);
    SliceBytes(Written(c, at, data), at, |data|);
  }

  /** A buffer with `data` in place of what it held at `at`. */
  function Overlay(b: seq<Byte>, at: nat, data: seq<Byte>): seq<Byte>
    requires at + |data| <= |b|
  {
    b[..at] + data + b[at + |data|..]
  }

  /** `copy_from_slice` into a part of a buffer. */
  method CopyInto(buf: array<Byte>, at: nat, data: seq<Byte>)
    requires at + |data| <= buf.Length
    modifies buf
    ensures buf[..] == Overlay(old(buf[..]), at, data)
  {
    forall i | 0 <= i < |data| {
      buf[at + i] := data[i];
    }
  }

  /** The buffer with `n` bytes of the file in it. */
  ghost function ReadSoFar(f: seq<Byte>, offset: nat, n: nat, was: seq<Byte>): seq<Byte>
    requires offset + n <= |f| && n <= |was|
  {
    f[offset..offset + n] + was[n..]
  }

  lemma ReadStart(f: seq<Byte>, offset: nat, was: seq<Byte>)
    requires offset <= |f|
    ensures ReadSoFar(f, offset, 0, was) == was
  {
  }

  lemma ReadMore(f: seq<Byte>, offset: nat, n: nat, len: nat, was: seq<Byte>)
    requires offset + n + len <= |f| && n + len <= |was|
    ensures |ReadSoFar(f, offset, n, was)| == |was|
    ensures Overlay(ReadSoFar(f, offset, n, was), n, f[offset + n..offset + n + len]) ==
            ReadSoFar(f, offset, n + len, was)
  {
  }

  lemma ReadEnd(f: seq<Byte>, offset: nat, n: nat, was: seq<Byte>)
    requires offset + n <= |f| && n <= |was|
    ensures
      var cur := ReadSoFar(f, offset, n, was);
      |cur| == |was| && cur[..n] == f[offset..offset + n] && cur[n..] == was[n..]
  {
  }
}
