/** Host files: growable byte arrays with positioned reads and writes that succeed. */
module HostFiles {
  import opened Bytes

  /** A host file: positioned reads come up short at the end, positioned writes extend it. */
  class HostFile {
    var data: seq<byte>

    constructor (contents: seq<byte>)
      ensures data == contents
    {
      data := contents;
    }

    method ReadFilePosition(buf: array<byte>, at: nat, n: nat, pos: nat) returns (got: nat)
      requires at + n <= buf.Length
      modifies buf
      ensures got == Max(0, Min(n, |data| - pos))
      ensures forall i :: 0 <= i < buf.Length ==>
        buf[i] == if at <= i < at + got then data[pos + (i - at)] else old(buf[i])
    {
      got := Max(0, Min(n, |data| - pos));
      forall i | at <= i < at + got {
        buf[i] := data[pos + (i - at)];
      }
    }

    method WriteFilePosition(bytes: seq<byte>, pos: nat)
      modifies this
      ensures data == Splice(old(data), pos, bytes)
    {
      data := Splice(data, pos, bytes);
    }
  }
}
