/**
 * The block I/O the driver issues on its own, as a trace of events in
 * submission order. Every `do_bio` call becomes a read or write of one
 * chunk at a device index and sector; the other events mark where the
 * behaviour of the C code depends on something the model cannot know.
 */
module Trace {
  datatype Io =
    | Read(device: int, sector: nat)
    | Write(device: int, sector: nat)
      /** A value the code reads was never assigned (a stack field or array entry left unset). */
    | Garbage
      /** A call through a null function pointer. */
    | NullCall
      /** A scheme call the model does not follow (see Schemes.Call). */
    | Unfollowed

  /** A trace made only of reads and writes. */
  predicate Plain(io: seq<Io>)
  {
    forall k :: 0 <= k < |io| ==> io[k].Read? || io[k].Write?
  }

  lemma PlainAppend(a: seq<Io>, b: seq<Io>)
    requires Plain(a) && Plain(b)
    ensures Plain(a + b)
  {
  }
}
