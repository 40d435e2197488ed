/*
 * The dual-write log sink of buffer.go: every write is forwarded to a
 * downstream writer and also captured in an internal byte buffer.
 */
module Buffers {
  import opened Wrappers

  newtype byte = x: int | 0 <= x < 256

  /** The bytes of a string whose characters are all below 256, one byte per character. */
  function Latin1(s: string): (r: seq<byte>)
    requires forall k :: 0 <= k < |s| ==> s[k] < 256 as char
    ensures |r| == |s|
    ensures forall k :: 0 <= k < |r| ==> r[k] as int == s[k] as int
  {
    if s == [] then [] else [s[0] as int as byte] + Latin1(s[1..])
  }

  /** All chunks of a write history, concatenated in order. */
  function Concat(chunks: seq<seq<byte>>): (r: seq<byte>)
  {
    if chunks == [] then [] else Concat(chunks[..|chunks| - 1]) + chunks[|chunks| - 1]
  }

  /**
   * The downstream io.Writer: it keeps what it accepts, or refuses
   * everything when broken.
   */
  class Sink {
    var data: seq<byte>
    const broken: bool

    constructor (broken: bool)
      ensures data == [] && this.broken == broken
    {
      data := [];
      this.broken := broken;
    }

    method Write(p: seq<byte>) returns (n: nat, err: Option<string>)
      modifies this`data
      ensures broken ==> n == 0 && err.Some? && data == old(data)
      ensures !broken ==> n == |p| && err == None && data == old(data) + p
    {
      if broken {
        return 0, Some("write refused");
      }
      data := data + p;
      n, err := |p|, None;
    }
  }

  /** Buffer: a passthrough writer that also captures every byte written to it. */
  class Buffer {
    var buf: seq<byte>
    const writer: Sink
    ghost var writes: seq<seq<byte>>

    /** The captured bytes are every write so far, in order. */
    ghost predicate Valid()
      reads this
    {
      buf == Concat(writes)
    }

    /** NewBuffer: nothing captured yet. */
    constructor (w: Sink)
      ensures Valid()
      ensures buf == [] && writes == [] && writer == w
    {
      buf := [];
      writer := w;
      writes := [];
    }

    /**
     * Forwards p downstream, ignoring the writer's outcome, then appends it
     * to the captured bytes; reports all of p written.
     */
    method Write(p: seq<byte>) returns (n: nat, err: Option<string>)
      requires Valid()
      modifies this`buf, this`writes, writer`data
      ensures Valid()
      ensures writes == old(writes) + [p] && buf == old(buf) + p
      ensures writer.data == if writer.broken then old(writer.data) else old(writer.data) + p
      ensures n == |p| && err == None
    {
      var _, _ := writer.Write(p);
      buf := buf + p;
      writes := writes + [p];
      n, err := |p|, None;
    }

    /** WriteString: the same as Write on the bytes of s. */
    method WriteString(s: seq<byte>) returns (n: nat, err: Option<string>)
      requires Valid()
      modifies this`buf, this`writes, writer`data
      ensures Valid()
      ensures writes == old(writes) + [s] && buf == old(buf) + s
      ensures writer.data == if writer.broken then old(writer.data) else old(writer.data) + s
      ensures n == |s| && err == None
    {
      var p := s;
      var _, _ := writer.Write(p);
      buf := buf + s;
      writes := writes + [s];
      n, err := |s|, None;
    }

    /** The captured bytes: every chunk written so far, concatenated. */
    function Bytes(): (r: seq<byte>)
      requires Valid()
      reads this
      ensures r == Concat(writes)
    {
      buf
    }
  }

  /** The bytes of "banana banana". */
  const Banana: seq<byte> := Latin1("banana banana")

  /** Writing "banana banana" through a fresh buffer, as a string or as bytes. */
  method BananaExample(asString: bool) returns (n: nat, err: Option<string>, captured: seq<byte>, forwarded: seq<byte>)
    ensures n == 13 && err == None
    ensures captured == Banana && forwarded == Banana
  {
    var downstream := new Sink(false);
    var b := new Buffer(downstream);
    var p := Banana;
    if asString {
      n, err := b.WriteString(p);
    } else {
      n, err := b.Write(p);
    }
    captured := b.Bytes();
    forwarded := downstream.data;
  }
}
