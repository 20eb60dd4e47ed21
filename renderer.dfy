/** The sink that views.rs writes display-list entries to. Only what the
    layout needs is kept: the entries written so far, and how many more the
    underlying writer accepts before it reports an I/O error. */
module Rendering {
  import opened DisplayList

  class Renderer {
    /** The entries written so far, in order. */
    var entries: seq<Entry>
    /** How many more entries the writer accepts; the next write after that fails. */
    var room: nat

    constructor(room: nat)
      ensures entries == [] && this.room == room
    {
      entries := [];
      this.room := room;
    }

    /** `Renderer::render`: writes one entry, or fails and writes nothing. */
    method Render(e: Entry) returns (ok: bool)
      modifies this
      ensures ok <==> old(room) > 0
      ensures ok ==> entries == old(entries) + [e] && room == old(room) - 1
      ensures !ok ==> entries == old(entries) && room == old(room)
    {
      if room == 0 {
        ok := false;
      } else {
        entries := entries + [e];
        room := room - 1;
        ok := true;
      }
    }
  }

  /** The first `n` elements of `s`, or all of `s` if it is shorter. */
  function Take<T>(s: seq<T>, n: nat): (t: seq<T>)
    ensures |t| == if n < |s| then n else |s|
    ensures t <= s
  {
    if n < |s| then s[..n] else s
  }

  /** The state of `r` after trying to write `attempted`, in order, stopping
      at the first failure, to a renderer that held `before` and had room for
      `room` more entries: the entries that fitted were written, the room
      shrank by as many, and every write succeeded exactly when all fitted. */
  ghost predicate Wrote(r: Renderer, before: seq<Entry>, room: nat, attempted: seq<Entry>, ok: bool)
    reads r
  {
    && r.entries == before + Take(attempted, room)
    && r.room == room - |Take(attempted, room)|
    && (ok <==> |attempted| <= room)
  }

  /** One `renderer.render(..)?`: once a write has failed nothing more is
      written, which is what returning early with the error amounts to. */
  method Put(r: Renderer, e: Entry, ok: bool, ghost before: seq<Entry>, ghost room: nat, ghost attempted: seq<Entry>)
    returns (ok': bool)
    requires Wrote(r, before, room, attempted, ok)
    modifies r
    ensures Wrote(r, before, room, attempted + [e], ok')
  {
    if ok {
      ok' := r.Render(e);
      assert attempted + [e] == Take(attempted + [e], room) || !ok';
    } else {
      ok' := false;
      assert Take(attempted + [e], room) == Take(attempted, room);
    }
  }
}
