// include/helpers.h: the unchecked copies of the readers in include/util.h.
// They index the buffer without a bounds test, so a read past the end is
// undefined behaviour; here that is the callers' obligation (a requires), and
// within it every reader returns what its guarded counterpart in Util returns.
// helpers.h's split, rol, ror and subset are the same code as util.h's and are
// modelled once, in Strings and Util.

module Helpers {
  import opened Bytes
  import Util

  /** Util::read<T>: the little-endian accumulating loop with no guard. */
  method Read(data: seq<byte>, offset: u32, width: nat) returns (r: nat)
    requires offset + width <= |data|
    ensures r == Util.ReadLe(data, offset, width)
  {
    r := 0;
    var i := 0;
    while i < width
      invariant 0 <= i <= width
      invariant r == LE(data[offset..offset + i])
    {
      assert data[offset..offset + i + 1][..i] == data[offset..offset + i];
      r := r + data[i + offset] * Pow256(i);
      i := i + 1;
    }
  }

  /** Util::read_big<T>: the big-endian loop, last byte first, with no guard. */
  method ReadBig(data: seq<byte>, offset: u32, width: nat) returns (r: nat)
    requires offset + width <= |data|
    ensures r == Util.ReadBe(data, offset, width)
  {
    r := 0;
    var i := width - 1;
    while i >= 0
      invariant -1 <= i < width
      invariant r == BE(data[offset + i + 1..offset + width])
    {
      assert data[offset + i..offset + width][1..] == data[offset + i + 1..offset + width];
      r := r + data[i + offset] * Pow256(width - 1 - i);
      i := i - 1;
    }
  }

  /** Util::read(data, offset, size) without the size guard: the window must lie
    * inside the buffer; with size 0 the NUL scan still reads data[offset + length]
    * before testing the bound, and None stands for that read running off the end. */
  method ReadString(data: seq<byte>, offset: u32, size: nat) returns (r: Option<string>)
    requires offset + size <= |data|
    ensures size > 0 ==> r == Some(Util.TrimRight(Chars(data[offset..offset + size])))
    ensures r == Util.ReadText(data, offset, size)
  {
    var length := size;
    if length == 0 {
      while true
        invariant offset + length <= |data|
        invariant forall k :: offset <= k < offset + length ==> data[k] != 0
        decreases |data| - (offset + length)
      {
        if offset + length >= |data| {
          return None;
        }
        if data[offset + length] == 0 {
          break;
        }
        length := length + 1;
      }
      Util.NulFromFirst(data, offset, offset + length);
    }
    r := Some(Util.TrimRight(Chars(data[offset..offset + length])));
  }
}
