/** The input streams of stream.h and the handler that a reader reports to. */
module Streams {
  import opened Bytes
  import opened ReaderSpec

  /** A NUL-terminated buffer read through `src`; in-situ parsing also writes it through `dst`.
      GenericStringStream uses only the first half, GenericInsituStringStream both. */
  class Stream {
    const buf: array<Byte>
    ghost const text: seq<Byte>  // the buffer's first contents, without the NUL
    var src: nat
    var dst: nat

    /** What has not been read yet is what the buffer first held, NUL included. */
    ghost predicate Valid()
      reads this, buf
    {
      && buf.Length == |text| + 1
      && src <= |text|
      && forall i :: src <= i <= |text| ==> buf[i] == At(text, i)
    }

    constructor (buffer: array<Byte>)
      requires 0 < buffer.Length && buffer[buffer.Length - 1] == NUL
      ensures Valid() && buf == buffer && text == buffer[..buffer.Length - 1]
      ensures src == 0 && dst == 0
    {
      buf, src, dst := buffer, 0, 0;
      text := buffer[..buffer.Length - 1];
    }

    function Peek(): (c: Byte)
      requires Valid()
      reads this, buf
      ensures c == At(text, src)
    {
      buf[src]
    }

    method Take() returns (c: Byte)
      requires Valid() && src < |text|
      modifies this`src
      ensures Valid() && src == old(src) + 1 && c == text[old(src)]
    {
      c := buf[src];
      src := src + 1;
    }

    method Consume(wanted: Byte) returns (b: bool)
      requires Valid() && wanted != NUL
      modifies this`src
      ensures Valid()
      ensures b <==> At(text, old(src)) == wanted
      ensures src == if b then old(src) + 1 else old(src)
    {
      b := Peek() == wanted;
      if b {
        src := src + 1;
      }
    }

    method SkipWhitespace()
      requires Valid()
      modifies this`src
      ensures Valid() && src == SkipWs(text, old(src))
    {
      while IsWhitespace(Peek())
        invariant Valid()
        invariant SkipWs(text, src) == SkipWs(text, old(src))
        decreases |text| - src
      {
        src := src + 1;
      }
    }

    method PutBegin() returns (head: nat)
      requires Valid()
      modifies this`dst
      ensures Valid() && head == dst == src
    {
      dst := src;
      head := dst;
    }

    /** Writing behind the read cursor leaves the unread text alone. */
    method Put(c: Byte)
      requires Valid() && dst < src
      modifies this`dst, buf
      ensures Valid() && dst == old(dst) + 1
      ensures buf[..] == old(buf[..])[old(dst) := c]
    {
      buf[dst] := c;
      dst := dst + 1;
    }
  }

  /** The bytes of a string argument: its own, or those now in the buffer. */
  function TextBytes(buffer: seq<Byte>, text: Text): (s: seq<Byte>)
    requires text.InPlace? ==> text.begin + text.length <= |buffer|
  {
    match text
    case Copied(bytes) => bytes
    case InPlace(begin, length) => buffer[begin..begin + length]
  }

  /** Every slice that `event` holds ends at or before `limit`. */
  predicate Below(event: Event, limit: nat) {
    var text := if event.String? || event.Key? then event.text else Copied([]);
    text.InPlace? ==> text.begin + text.length <= limit
  }

  ghost predicate AllBelow(log: seq<Event>, limit: nat) {
    forall i :: 0 <= i < |log| ==> Below(log[i], limit)
  }

  function ResolveEvent(buffer: seq<Byte>, event: Event): Event
    requires Below(event, |buffer|)
  {
    match event
    case String(text) => String(Copied(TextBytes(buffer, text)))
    case Key(text) => Key(Copied(TextBytes(buffer, text)))
    case _ => event
  }

  /** The events as a handler sees them that looks at its slices only now. */
  function Resolve(buffer: seq<Byte>, log: seq<Event>): (events: seq<Event>)
    requires AllBelow(log, |buffer|)
    ensures |events| == |log|
    ensures forall i :: 0 <= i < |log| ==> events[i] == ResolveEvent(buffer, log[i])
  {
    seq(|log|, i requires 0 <= i < |log| => ResolveEvent(buffer, log[i]))
  }

  lemma ResolveEventUnchanged(before: seq<Byte>, after: seq<Byte>, event: Event, limit: nat)
    requires limit <= |before| == |after| && before[..limit] == after[..limit]
    requires Below(event, limit)
    ensures ResolveEvent(before, event) == ResolveEvent(after, event)
  {
    if (event.String? || event.Key?) && event.text.InPlace? {
      var b, e := event.text.begin, event.text.begin + event.text.length;
      assert before[b..e] == before[..limit][b..e] == after[..limit][b..e] == after[b..e];
    }
  }

  /** Slices survive every write at or after `limit` if they end before it. */
  lemma ResolveUnchanged(before: seq<Byte>, after: seq<Byte>, log: seq<Event>, limit: nat)
    requires limit <= |before| == |after| && before[..limit] == after[..limit]
    requires AllBelow(log, limit)
    ensures AllBelow(log, |before|)
    ensures Resolve(before, log) == Resolve(after, log)
  {
    forall i | 0 <= i < |log|
      ensures Below(log[i], |before|) && ResolveEvent(before, log[i]) == ResolveEvent(after, log[i])
    {
      ResolveEventUnchanged(before, after, log[i], limit);
    }
  }

  /** A handler that refuses nothing and remembers everything. */
  class Handler {
    var log: seq<Event>

    constructor ()
      ensures log == []
    {
      log := [];
    }

    method Notify(event: Event)
      modifies this
      ensures log == old(log) + [event]
    {
      log := log + [event];
    }
  }
}
