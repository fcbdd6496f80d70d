/** When the cuts that TCP makes in a stream do not matter to `receiveTCP` of internal/protocolruntime/listeners.go: the
    exact condition, over the reads a session can really make. */
module FramingCuts {
  import opened Common
  import opened Framing

  /** A stream read one byte at a time. */
  function ByByte(pkg: Package, s: Session, stream: seq<byte>): Outcome
    decreases |stream|
  {
    if stream == [] then Outcome([], s, Some([]))
    else
      var r := ByByte(pkg, s, stream[..|stream| - 1]);
      if r.left.None? then r
      else Prepend(r.frames, Fed(pkg, r.session, r.left.value + [stream[|stream| - 1]]))
  }

  /** Every way of reading a stream comes to the same frames, session, leftover and error. */
  ghost predicate CutsDoNotMatter(pkg: Package) {
    forall s, a, b ::
      Legal(pkg, s, a) && Legal(pkg, s, b) && Joined(a) == Joined(b) ==> Received(pkg, s, a) == Received(pkg, s, b)
  }

  /** In any state that reading can reach, if a read is rejected then the read that brings more at once is rejected too,
      after the same frames. */
  ghost predicate RejectsAlike(pkg: Package) {
    forall s, stream, x, more: seq<byte> :: Rejecting(pkg, s, stream, x, more) ==>
      var r := ByByte(pkg, s, stream);
      Fed(pkg, r.session, r.left.value + (x + more)) == Fed(pkg, r.session, r.left.value + x)
  }

  /** After `stream` the session is alive, and a read of `x` kills it; `x + more` is also a read it could make. */
  predicate Rejecting(pkg: Package, s: Session, stream: seq<byte>, x: seq<byte>, more: seq<byte>) {
    var r := ByByte(pkg, s, stream);
    && r.left.Some? && x != [] && |x + more| <= CHUNK && |r.left.value + (x + more)| <= MAX_BUFFER
    && Fed(pkg, r.session, r.left.value + x).left.None?
  }

  lemma OneByteMore(pkg: Package, s: Session, stream: seq<byte>, c: byte)
    ensures
      var r := ByByte(pkg, s, stream);
      ByByte(pkg, s, stream + [c]) ==
      if r.left.None? then r else Prepend(r.frames, Fed(pkg, r.session, r.left.value + [c]))
  {
    assert (stream + [c])[..|stream|] == stream;
  }

  lemma {:induction false} FailureStays(pkg: Package, s: Session, stream: seq<byte>, more: seq<byte>)
    requires ByByte(pkg, s, stream).left.None?
    ensures ByByte(pkg, s, stream + more) == ByByte(pkg, s, stream)
    decreases |more|
  {
    hide Fed, ByByte;
    if more == [] {
      assert stream + more == stream;
    } else {
      var x, c := more[..|more| - 1], more[|more| - 1];
      FailureStays(pkg, s, stream, x);
      OneByteMore(pkg, s, stream + x, c);
      assert stream + more == stream + x + [c];
    }
  }

  /** A read does what reading its bytes one by one does. */
  lemma {:induction false} OneRead(pkg: Package, s: Session, stream: seq<byte>, y: seq<byte>)
    requires Unchanging(pkg) && RejectsAlike(pkg) && ByByte(pkg, s, stream).left.Some?
    requires 0 < |y| <= CHUNK && |ByByte(pkg, s, stream).left.value + y| <= MAX_BUFFER
    ensures
      var r := ByByte(pkg, s, stream);
      ByByte(pkg, s, stream + y) == Prepend(r.frames, Fed(pkg, r.session, r.left.value + y))
    decreases |y|
  {
    hide Fed, ByByte, Unchanging, RejectsAlike;
    var r := ByByte(pkg, s, stream);
    var x, c := y[..|y| - 1], y[|y| - 1];
    var p := r.left.value;
    assert y == x + [c] && stream + y == stream + x + [c] && p + y == p + x + [c];
    OneByteMore(pkg, s, stream + x, c);
    if x == [] {
      assert stream + x == stream && p + x == p;
    } else {
      OneRead(pkg, s, stream, x);
      var f := Fed(pkg, r.session, p + x);
      if f.left.None? {
        RejectedTogether(pkg, s, stream, x, [c]);
      } else {
        FedAppend(pkg, r.session, p + x, [c]);
        PrependTwice(r.frames, f.frames, Fed(pkg, f.session, f.left.value + [c]));
      }
    }
  }

  lemma RejectedTogether(pkg: Package, s: Session, stream: seq<byte>, x: seq<byte>, more: seq<byte>)
    requires RejectsAlike(pkg) && Rejecting(pkg, s, stream, x, more)
    ensures
      var r := ByByte(pkg, s, stream);
      Fed(pkg, r.session, r.left.value + (x + more)) == Fed(pkg, r.session, r.left.value + x)
  {
  }

  /** So does every sequence of reads. */
  lemma {:induction false} ReadsAreByByte(pkg: Package, s: Session, parts: seq<seq<byte>>)
    requires Unchanging(pkg) && RejectsAlike(pkg) && Legal(pkg, s, parts)
    ensures Received(pkg, s, parts) == ByByte(pkg, s, Joined(parts))
    decreases |parts|
  {
    hide Fed, ByByte, Unchanging, RejectsAlike, Received, Legal, Joined;
    if parts == [] {
      NoReads(pkg, s);
    } else {
      var before, last := parts[..|parts| - 1], parts[|parts| - 1];
      assert parts == before + [last];
      OneMoreRead(pkg, s, before, last);
      ReadsAreByByte(pkg, s, before);
      JoinedMore(before, last);
      if ByByte(pkg, s, Joined(before)).left.None? {
        FailureStays(pkg, s, Joined(before), last);
      } else {
        OneRead(pkg, s, Joined(before), last);
      }
    }
  }

  lemma NoReads(pkg: Package, s: Session)
    ensures Joined([]) == [] && Legal(pkg, s, []) && Received(pkg, s, []) == ByByte(pkg, s, []) == Outcome([], s, Some([]))
  {
  }

  /** Reading byte by byte is one of the ways of reading. */
  lemma {:induction false} ByByteIsLegal(pkg: Package, s: Session, stream: seq<byte>) returns (parts: seq<seq<byte>>)
    ensures Legal(pkg, s, parts) && Joined(parts) == stream && Received(pkg, s, parts) == ByByte(pkg, s, stream)
    ensures ByByte(pkg, s, stream).left.Some? ==> |ByByte(pkg, s, stream).left.value| < MAX_BUFFER
    decreases |stream|
  {
    hide Fed, ByByte, Received, Legal, Joined;
    if stream == [] {
      parts := [];
      NoReads(pkg, s);
    } else {
      var before, c := stream[..|stream| - 1], stream[|stream| - 1];
      assert stream == before + [c];
      parts := ByByteIsLegal(pkg, s, before);
      OneByteMore(pkg, s, before, c);
      OneMoreRead(pkg, s, parts, [c]);
      JoinedMore(parts, [c]);
      var r := ByByte(pkg, s, before);
      if r.left.Some? {
        LeftIsShort(pkg, r.session, r.left.value + [c]);
      }
      parts := parts + [[c]];
    }
  }

  /** What is left of a full buffer or less is less than full. */
  lemma {:induction false} LeftIsShort(pkg: Package, s: Session, data: seq<byte>)
    requires |data| <= MAX_BUFFER
    ensures Fed(pkg, s, data).left.Some? ==> |Fed(pkg, s, data).left.value| < MAX_BUFFER
    decreases |data|
  {
    if data != [] {
      var f := FrameOf(pkg, s, data);
      assert Window(data) == data;
      hide FrameOf;
      if f.Consumed? {
        LeftIsShort(pkg, f.session, data[f.count..]);
      }
    }
  }

  lemma CutsThatRejectAlike(pkg: Package, s: Session, stream: seq<byte>, x: seq<byte>, more: seq<byte>)
    requires CutsDoNotMatter(pkg) && Rejecting(pkg, s, stream, x, more)
    ensures
      var r := ByByte(pkg, s, stream);
      Fed(pkg, r.session, r.left.value + (x + more)) == Fed(pkg, r.session, r.left.value + x)
  {
    hide Fed, ByByte, Received, Legal, Joined;
    var r := ByByte(pkg, s, stream);
    var parts := ByByteIsLegal(pkg, s, stream);
    OneMoreRead(pkg, s, parts, x);
    OneMoreRead(pkg, s, parts + [x], more);
    OneMoreRead(pkg, s, parts, x + more);
    JoinedMore(parts, x);
    JoinedMore(parts + [x], more);
    JoinedMore(parts, x + more);
    assert stream + x + more == stream + (x + more);
    SameCut(pkg, s, parts + [x] + [more], parts + [x + more]);
    PrependInjective(r.frames, Fed(pkg, r.session, r.left.value + (x + more)), Fed(pkg, r.session, r.left.value + x));
  }

  lemma SameCut(pkg: Package, s: Session, a: seq<seq<byte>>, b: seq<seq<byte>>)
    requires CutsDoNotMatter(pkg) && Legal(pkg, s, a) && Legal(pkg, s, b) && Joined(a) == Joined(b)
    ensures Received(pkg, s, a) == Received(pkg, s, b)
  {
  }

  lemma PrependInjective(frames: seq<seq<byte>>, q: Outcome, r: Outcome)
    requires Prepend(frames, q) == Prepend(frames, r)
    ensures q == r
  {
    assert (frames + q.frames)[|frames|..] == q.frames && (frames + r.frames)[|frames|..] == r.frames;
  }

  /** For a package with unchanging answers the cuts do not matter, if and only if a read that is rejected is rejected
      alike when it brings more at once. */
  lemma CutsDoNotMatterExactlyWhen(pkg: Package)
    requires Unchanging(pkg)
    ensures CutsDoNotMatter(pkg) <==> RejectsAlike(pkg)
  {
    if RejectsAlike(pkg) {
      forall s, a, b | Legal(pkg, s, a) && Legal(pkg, s, b) && Joined(a) == Joined(b)
        ensures Received(pkg, s, a) == Received(pkg, s, b)
      {
        ReadsAreByByte(pkg, s, a);
        ReadsAreByByte(pkg, s, b);
      }
    }
    if CutsDoNotMatter(pkg) {
      forall s, stream, x, more: seq<byte> | Rejecting(pkg, s, stream, x, more)
        ensures
          var r := ByByte(pkg, s, stream);
          Fed(pkg, r.session, r.left.value + (x + more)) == Fed(pkg, r.session, r.left.value + x)
      {
        CutsThatRejectAlike(pkg, s, stream, x, more);
      }
    }
  }

  /** What stays rejected under any number of bytes does so in particular within one read. */
  lemma StableRejectsAlike(pkg: Package)
    requires Stable(pkg)
    ensures RejectsAlike(pkg) && CutsDoNotMatter(pkg)
  {
    hide Fed, ByByte, Unchanging, StaysRejected, CutsDoNotMatter;
    forall s, stream, x, more: seq<byte> | Rejecting(pkg, s, stream, x, more)
      ensures
        var r := ByByte(pkg, s, stream);
        Fed(pkg, r.session, r.left.value + (x + more)) == Fed(pkg, r.session, r.left.value + x)
    {
      var r := ByByte(pkg, s, stream);
      FedAppend(pkg, r.session, r.left.value + x, more);
      assert r.left.value + x + more == r.left.value + (x + more);
    }
    CutsDoNotMatterExactlyWhen(pkg);
  }

  /** A package that waits for 100 bytes and then claims 20001, more than one read can bring at that point. */
  function LongClaim(): Package {
    Package((_, data: seq<byte>) => if |data| < 100 then NeedMore(0) else Complete(20001, "d", true, []), (_, _, _) => true, "")
  }

  lemma LongClaimFrames(s: Session, data: seq<byte>)
    ensures FrameOf(LongClaim(), s, data) == Incomplete <==> |data| < 100
    ensures 100 <= |data| < 20001 ==> FrameOf(LongClaim(), s, data) == Rejected
  {
  }

  lemma LongClaimFed(s: Session, data: seq<byte>)
    requires |data| < 20001
    ensures Fed(LongClaim(), s, data) == if |data| < 100 then Outcome([], s, Some(data)) else Outcome([], s, None)
  {
    LongClaimFrames(s, Window(data));
    assert |data| <= MAX_BUFFER;
  }

  lemma {:induction false} LongClaimWaits(s: Session, stream: seq<byte>)
    ensures ByByte(LongClaim(), s, stream).left.Some? ==> |ByByte(LongClaim(), s, stream).left.value| < 100
    decreases |stream|
  {
    hide Fed, LongClaim;
    if stream != [] {
      var before, c := stream[..|stream| - 1], stream[|stream| - 1];
      LongClaimWaits(s, before);
      var r := ByByte(LongClaim(), s, before);
      if r.left.Some? {
        LongClaimFed(r.session, r.left.value + [c]);
      }
    }
  }

  /** Its rejections do not stay, and yet no cut ever matters: the exact condition is about single reads. */
  lemma LongClaimIsHarmless()
    ensures Unchanging(LongClaim()) && !StaysRejected(LongClaim()) && CutsDoNotMatter(LongClaim())
  {
    var pkg, s := LongClaim(), Session("", []);
    var short, rest: seq<byte> := seq(100, _ => 0), seq(19901, _ => 0);
    assert FrameOf(pkg, s, short).Rejected? && FrameOf(pkg, s, short + rest).Consumed?;
    forall s, stream, x, more: seq<byte> | Rejecting(pkg, s, stream, x, more)
      ensures
        var r := ByByte(pkg, s, stream);
        Fed(pkg, r.session, r.left.value + (x + more)) == Fed(pkg, r.session, r.left.value + x)
    {
      var r := ByByte(pkg, s, stream);
      LongClaimWaits(s, stream);
      LongClaimFed(r.session, r.left.value + x);
      LongClaimFed(r.session, r.left.value + (x + more));
    }
    CutsDoNotMatterExactlyWhen(pkg);
  }
}
