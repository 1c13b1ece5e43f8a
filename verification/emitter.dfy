/** The last step of rsvp-auto-tunnel-mesh.py (lines 99-102): a non-empty
    delta is sent to the device between the commands that enter and leave
    the RSVP configuration mode; an empty one is not sent at all. */
module Emitter {
  import opened Results

  const Preamble: seq<string> := ["configure", "router traffic-engineering", "rsvp"]
  const Postamble: seq<string> := ["end", "write"]

  /** The request of lines 99-102, `None` when nothing is sent. */
  function Wrap(delta: seq<string>): (request: Option<seq<string>>)
    ensures request.None? <==> delta == []
  {
    if |delta| > 0 then Some(Preamble + delta + Postamble) else None
  }

  /** The delta carried by a request: what lies between the two framings. */
  function Unwrap(request: seq<string>): Option<seq<string>>
  {
    if |request| >= |Preamble| + |Postamble| &&
       request[..|Preamble|] == Preamble && request[|request| - |Postamble|..] == Postamble
    then Some(request[|Preamble|..|request| - |Postamble|])
    else None
  }

  /** A request starts with the preamble, ends with the postamble and
      carries the delta unchanged. */
  lemma UnwrapWrap(delta: seq<string>)
    requires delta != []
    ensures Wrap(delta).Some? && Unwrap(Wrap(delta).value) == Some(delta)
  {
    var request := Preamble + delta + Postamble;
    assert request[..|Preamble|] == Preamble;
    assert request[|request| - |Postamble|..] == Postamble;
    assert request[|Preamble|..|request| - |Postamble|] == delta;
  }
}
