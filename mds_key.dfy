/** The composite row key of the sorted table, seen as its sequence of length-framed
    segments. Raw byte segments and UTF-8 string segments are framed the same way, so
    both are one Segment here; the byte-level framing itself is not part of this model. */
module MdsKey {
  import opened Wrappers

  /** One length-framed token of a composite key. */
  type Segment = string

  /** An immutable composite key: its segments in insertion order. */
  datatype Key = Key(segments: seq<Segment>)

  /** Single-use builder that appends segments in order. */
  class Builder {
    var segments: seq<Segment>

    constructor ()
      ensures segments == []
    {
      segments := [];
    }

    method Add(s: Segment)
      modifies this
      ensures segments == old(segments) + [s]
    {
      segments := segments + [s];
    }

    method Build() returns (k: Key)
      ensures k.segments == segments
    {
      k := Key(segments);
    }
  }

  /** Forward-only cursor over the segments of a key. Reading past the end fails with
      MalformedKey and leaves the cursor where it was. */
  class Splitter {
    const segments: seq<Segment>
    var pos: nat

    ghost predicate Valid()
      reads this
    {
      pos <= |segments|
    }

    constructor (key: Key)
      ensures Valid() && segments == key.segments && pos == 0
    {
      segments := key.segments;
      pos := 0;
    }

    predicate HasRemaining()
      reads this
    {
      pos < |segments|
    }

    /** Reads the next segment as a string and advances past it. */
    method GetString() returns (r: Result<Segment>)
      requires Valid()
      modifies this
      ensures Valid()
      ensures old(HasRemaining()) ==> r == Success(segments[old(pos)]) && pos == old(pos) + 1
      ensures !old(HasRemaining()) ==> r == Failure(MalformedKey) && pos == old(pos)
    {
      if pos < |segments| {
        r := Success(segments[pos]);
        pos := pos + 1;
      } else {
        r := Failure(MalformedKey);
      }
    }

    /** Advances past the next segment without reading it. */
    method SkipString() returns (r: Outcome)
      requires Valid()
      modifies this
      ensures Valid()
      ensures old(HasRemaining()) ==> r == Pass && pos == old(pos) + 1
      ensures !old(HasRemaining()) ==> r == Fail(MalformedKey) && pos == old(pos)
    {
      if pos < |segments| {
        r := Pass;
        pos := pos + 1;
      } else {
        r := Fail(MalformedKey);
      }
    }

    /** Advances past the next raw-byte segment; its framing is that of a string segment. */
    method SkipBytes() returns (r: Outcome)
      requires Valid()
      modifies this
      ensures Valid()
      ensures old(HasRemaining()) ==> r == Pass && pos == old(pos) + 1
      ensures !old(HasRemaining()) ==> r == Fail(MalformedKey) && pos == old(pos)
    {
      r := SkipString();
    }
  }
}
