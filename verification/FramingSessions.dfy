/** What the frames of a listener session are, and why they stop: the checks of `frame` in
    internal/protocolruntime/listeners.go, followed through all reads. */
module FramingSessions {
  import opened Common
  import opened Framing

  /** The device that a frame belongs to: the session's own; else the one the package names; else the profile's. */
  function DeviceOf(pkg: Package, s: Session, id: string): string {
    if s.deviceID != "" then s.deviceID else if id != "" then id else pkg.profileDevice
  }

  /** The package, shown `data`, claimed a frame of this length with a sendable reply, for no other device than the
      session's; it was accepted for that device, and the session goes on with the package's state. */
  predicate Takes(pkg: Package, s: Session, data: seq<byte>, frame: seq<byte>, t: Session) {
    match pkg.ingress(s, data)
    case Complete(consumed, id, replyIsHex, state) =>
      && 0 < consumed <= |data| && frame == data[..consumed] && replyIsHex
      && (s.deviceID == "" || id == "" || id == s.deviceID)
      && pkg.accept(s, frame, DeviceOf(pkg, s, id))
      && t == Session(DeviceOf(pkg, s, id), state)
    case _ => false
  }

  /** The package failed, asked for more in vain, or claimed what one of these checks refuses. */
  predicate Refuses(pkg: Package, s: Session, data: seq<byte>) {
    match pkg.ingress(s, data)
    case WorkerError => true
    case NeedMore(consumed) => consumed != 0 || |data| >= 65_536
    case Complete(consumed, id, replyIsHex, _) =>
      || !(0 < consumed <= |data|) || !replyIsHex
      || (s.deviceID != "" && id != "" && id != s.deviceID)
      || !pkg.accept(s, data[..consumed], DeviceOf(pkg, s, id))
  }

  /** What the package is shown: some of the bytes that come next, and no more than the buffer holds. */
  predicate Shown(stream: seq<byte>, data: seq<byte>) {
    data != [] && data <= stream && |data| <= 65_536
  }

  /** The frames were taken off the front of a stream one by one, each in the session that the one before left. */
  ghost predicate Taken(pkg: Package, s: Session, stream: seq<byte>, frames: seq<seq<byte>>, end: Session)
    decreases |frames|
  {
    if frames == [] then end == s
    else
      exists data: seq<byte>, t: Session ::
        Shown(stream, data) && Takes(pkg, s, data, frames[0], t)
        && |frames[0]| <= |stream| && Taken(pkg, t, stream[|frames[0]|..], frames[1..], end)
  }

  /** Framing stopped for a reason: the package waits for more than all bytes left, or refused some of them. */
  ghost predicate Stopped(pkg: Package, r: Outcome, rest: seq<byte>) {
    match r.left
    case Some(left) => left == rest && (left != [] ==> pkg.ingress(r.session, left) == NeedMore(0) && |left| < 65_536)
    case None => exists data :: Shown(rest, data) && Refuses(pkg, r.session, data)
  }

  ghost predicate Explained(pkg: Package, s: Session, stream: seq<byte>, r: Outcome) {
    && Joined(r.frames) <= stream
    && Taken(pkg, s, stream, r.frames, r.session)
    && Stopped(pkg, r, stream[|Joined(r.frames)|..])
  }

  lemma FrameExplained(pkg: Package, s: Session, data: seq<byte>)
    requires data != [] && |data| <= MAX_BUFFER
    ensures
      match FrameOf(pkg, s, data)
      case Rejected => Refuses(pkg, s, data)
      case Incomplete => pkg.ingress(s, data) == NeedMore(0) && |data| < 65_536
      case Consumed(n, t) => Takes(pkg, s, data, data[..n], t)
  {
  }

  lemma WindowIsShown(stream: seq<byte>)
    requires stream != []
    ensures Shown(stream, Window(stream)) && (|Window(stream)| < MAX_BUFFER ==> Window(stream) == stream)
  {
  }

  lemma NothingTaken(pkg: Package, s: Session, stream: seq<byte>)
    ensures Taken(pkg, s, stream, [], s)
  {
  }

  lemma TakenFirst(
    pkg: Package, s: Session, stream: seq<byte>, frames: seq<seq<byte>>, data: seq<byte>, t: Session, end: Session)
    requires frames != [] && Shown(stream, data) && Takes(pkg, s, data, frames[0], t)
    requires |frames[0]| <= |stream| && Taken(pkg, t, stream[|frames[0]|..], frames[1..], end)
    ensures Taken(pkg, s, stream, frames, end)
  {
  }

  /** The frame in front and what explains the rest explain the whole. */
  lemma OneMoreFrame(pkg: Package, s: Session, stream: seq<byte>, data: seq<byte>, n: nat, t: Session, later: Outcome)
    requires 0 < n <= |data| && Shown(stream, data) && Takes(pkg, s, data, data[..n], t)
    requires Explained(pkg, t, stream[n..], later)
    ensures Explained(pkg, s, stream, Prepend([stream[..n]], later))
  {
    hide Takes, Taken, Refuses;
    var r := Prepend([stream[..n]], later);
    assert data[..n] == stream[..n] && r.frames[0] == stream[..n] && r.frames[1..] == later.frames;
    TakenFirst(pkg, s, stream, r.frames, data, t, r.session);
    assert Joined(r.frames) == stream[..n] + Joined(later.frames);
    assert stream == stream[..n] + stream[n..];
    assert stream[|Joined(r.frames)|..] == stream[n..][|Joined(later.frames)|..];
  }

  lemma {:induction false} FedExplained(pkg: Package, s: Session, stream: seq<byte>)
    ensures Explained(pkg, s, stream, Fed(pkg, s, stream))
    decreases |stream|
  {
    hide FrameOf, Window, Takes, Refuses, Shown, Taken;
    NothingTaken(pkg, s, stream);
    assert stream[0..] == stream;
    if stream != [] {
      var data := Window(stream);
      WindowIsShown(stream);
      FrameExplained(pkg, s, data);
      var f := FrameOf(pkg, s, data);
      if f.Consumed? {
        assert f.count <= |stream| by { ShortWindow(stream); }
        FedExplained(pkg, f.session, stream[f.count..]);
        hide Explained;
        OneMoreFrame(pkg, s, stream, data, f.count, f.session, Fed(pkg, f.session, stream[f.count..]));
      }
    }
  }

  lemma {:induction false} TakenMore(
    pkg: Package, s: Session, stream: seq<byte>, frames: seq<seq<byte>>, mid: Session,
    longer: seq<byte>, more: seq<seq<byte>>, end: Session)
    requires stream <= longer && Joined(frames) <= stream && Taken(pkg, s, stream, frames, mid)
    requires Taken(pkg, mid, longer[|Joined(frames)|..], more, end)
    ensures Taken(pkg, s, longer, frames + more, end)
    decreases |frames|
  {
    hide Takes;
    if frames == [] {
      assert frames + more == more && longer[0..] == longer;
    } else {
      var data, t :| Shown(stream, data) && Takes(pkg, s, data, frames[0], t)
                     && |frames[0]| <= |stream| && Taken(pkg, t, stream[|frames[0]|..], frames[1..], mid);
      var n := |frames[0]|;
      assert longer[|Joined(frames)|..] == longer[n..][|Joined(frames[1..])|..];
      assert Joined(frames[1..]) == Joined(frames)[n..] <= stream[n..];
      TakenMore(pkg, t, stream[n..], frames[1..], mid, longer[n..], more, end);
      assert (frames + more)[1..] == frames[1..] + more;
      hide Taken;
      TakenFirst(pkg, s, longer, frames + more, data, t, end);
    }
  }

  /** For every package and all reads: each frame is one the package claimed and the session accepted, for the one device
      of the session, in the session state the package last gave; and framing stops only when the package waits for more
      than it has, or has been refused. */
  lemma {:induction false} EveryFrameIsAccepted(pkg: Package, s: Session, parts: seq<seq<byte>>)
    ensures Explained(pkg, s, Joined(parts), Received(pkg, s, parts))
    decreases |parts|
  {
    hide Taken, Fed, Refuses;
    if parts == [] {
      NothingExplained(pkg, s);
    } else {
      var before, last := parts[..|parts| - 1], parts[|parts| - 1];
      EveryFrameIsAccepted(pkg, s, before);
      JoinedMore(before, last);
      assert before + [last] == parts;
      OneMoreExplained(pkg, s, Joined(before), Received(pkg, s, before), last);
    }
  }

  lemma NothingExplained(pkg: Package, s: Session)
    ensures Explained(pkg, s, Joined([]), Outcome([], s, Some([])))
  {
  }

  lemma JoinedFrames(a: seq<seq<byte>>, b: seq<seq<byte>>)
    ensures Joined(a + b) == Joined(a) + Joined(b)
    decreases |a|
  {
    if a == [] {
      assert a + b == b;
    } else {
      JoinedFrames(a[1..], b);
      assert (a + b)[1..] == a[1..] + b;
    }
  }

  lemma OneMoreExplained(pkg: Package, s: Session, stream: seq<byte>, r: Outcome, last: seq<byte>)
    requires Explained(pkg, s, stream, r)
    ensures
      Explained(pkg, s, stream + last,
                if r.left.None? then r else Prepend(r.frames, Fed(pkg, r.session, r.left.value + last)))
  {
    hide Taken, Fed, Refuses;
    var longer, n := stream + last, |Joined(r.frames)|;
    assert longer[n..] == stream[n..] + last;
    if r.left.None? {
      var data :| Shown(stream[n..], data) && Refuses(pkg, r.session, data);
      assert Shown(longer[n..], data);
      NothingTaken(pkg, r.session, longer[n..]);
      TakenMore(pkg, s, stream, r.frames, r.session, longer, [], r.session);
      assert r.frames + [] == r.frames;
    } else {
      var later := Fed(pkg, r.session, r.left.value + last);
      FedExplained(pkg, r.session, r.left.value + last);
      TakenMore(pkg, s, stream, r.frames, r.session, longer, later.frames, later.session);
      JoinedFrames(r.frames, later.frames);
      assert longer[|Joined(r.frames + later.frames)|..] == longer[n..][|Joined(later.frames)|..];
    }
  }

  lemma {:induction false} DeviceIsKept(
    pkg: Package, s: Session, stream: seq<byte>, frames: seq<seq<byte>>, end: Session)
    requires Taken(pkg, s, stream, frames, end) && s.deviceID != ""
    ensures end.deviceID == s.deviceID
    decreases |frames|
  {
    if frames != [] {
      var data, t :| Shown(stream, data) && Takes(pkg, s, data, frames[0], t)
                     && |frames[0]| <= |stream| && Taken(pkg, t, stream[|frames[0]|..], frames[1..], end);
      DeviceIsKept(pkg, t, stream[|frames[0]|..], frames[1..], end);
    }
  }

  /** A session that has its device keeps it, whatever the package answers. */
  lemma SessionKeepsItsDevice(pkg: Package, s: Session, parts: seq<seq<byte>>)
    requires s.deviceID != ""
    ensures Received(pkg, s, parts).session.deviceID == s.deviceID
  {
    EveryFrameIsAccepted(pkg, s, parts);
    var r := Received(pkg, s, parts);
    DeviceIsKept(pkg, s, Joined(parts), r.frames, r.session);
  }
}
