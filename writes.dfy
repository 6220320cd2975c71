/** Writes to an output file, one `f.write(struct.pack(...))` at a time,
    where a pack that raises writes nothing and ends the writes. */
module Writes {
  import opened Outcomes
  import opened Bytes

  /** A packed value, or the exception its `struct.pack` raised. */
  type Packed = Result<seq<byte>>

  /** What a file holds after a run of writes, and the exception a pack
      raised on the way, if one did. */
  datatype Output = Output(bytes: seq<byte>, raised: Option<Failure>)

  /** The freshly truncated file, before any write. */
  const Fresh: Output := Output([], None)

  /** One more write after `o`: nothing happens once a pack has raised; a
      pack that raises now leaves the bytes as they are. */
  function Then(o: Output, p: Packed): (r: Output)
    ensures o.bytes <= r.bytes
    ensures o.raised.Some? ==> r == o
    ensures r.raised.None? <==> o.raised.None? && p.Ok?
  {
    if o.raised.Some? then o
    else
      match p
      case Err(e) => Output(o.bytes, Some(e))
      case Ok(b) => Output(o.bytes + b, None)
  }
}
