/** The pull-based camera connection from the client's end (integrations/python client.py and
    integrations/matlab MoorebotScout.m): whatever faults occur, every picture returned is one whole
    reply. */
module CameraClient {
  import opened Base
  import opened Wire
  import Messages

  const MAX_JPEG := 16 * 1024 * 1024

  /** A reply of the bridge: a big-endian length of four bytes, then the frame. */
  function Reply(jpeg: Bytes): Bytes {
    BeBytes(|jpeg|, 4) + jpeg
  }

  function Replies(frames: seq<Bytes>): seq<Bytes> {
    seq(|frames|, i requires 0 <= i < |frames| => Reply(frames[i]))
  }

  /** What the Python client requires of a picture. */
  predicate PythonAccepts(jpeg: Bytes) {
    1 <= |jpeg| <= MAX_JPEG && Messages.HasJpegMarkers(jpeg)
  }

  /** The MATLAB client also asks for four bytes. */
  predicate MatlabAccepts(jpeg: Bytes) {
    1 <= |jpeg| <= MAX_JPEG && |jpeg| >= 4 && Messages.HasJpegMarkers(jpeg)
  }

  /** What the clients accept: up to 16 MiB between the start and the end marker of a JPEG. */
  lemma AcceptedIsMarked(jpeg: Bytes)
    ensures PythonAccepts(jpeg) <==>
              |jpeg| <= 16_777_216 && exists picture :: jpeg == [0xff, 0xd8] + picture + [0xff, 0xd9]
    ensures MatlabAccepts(jpeg) <==> PythonAccepts(jpeg)
  {
    Messages.MarkersAreTheEnds(jpeg);
  }

  /** Every frame the bridge lets through, of valid size and with its markers, passes both clients'
      checks; two markers never share a byte, so the extra check of MATLAB changes nothing. */
  lemma BridgeFramesAreAccepted(f: Messages.ScoutFrame)
    requires Messages.ValidFrame(f) && Messages.HasJpegMarkers(f.data)
    ensures PythonAccepts(f.data) && MatlabAccepts(f.data)
  {
  }

  lemma OneMoreReply(pictures: seq<Bytes>, jpeg: Bytes)
    ensures Concat(Replies(pictures + [jpeg])) == Concat(Replies(pictures)) + Reply(jpeg)
  {
    ConcatAppend(Replies(pictures), [Reply(jpeg)]);
    ConcatFirst(Reply(jpeg), []);
    assert [Reply(jpeg)] + [] == [Reply(jpeg)] && Concat<Byte>([]) == [];
    assert Replies(pictures + [jpeg]) == Replies(pictures) + [Reply(jpeg)];
  }

  /** The stream goes on with the reply for an acceptable picture. */
  predicate ComesNext(incoming: Bytes, taken: nat, next: Bytes)
    requires taken <= |incoming|
  {
    PythonAccepts(next) && Reply(next) <= incoming[taken..]
  }

  /** A picture at some point of a stream announces its own length there. */
  lemma NextReply(incoming: Bytes, taken: nat, next: Bytes)
    requires taken <= |incoming|
    ensures ComesNext(incoming, taken, next) ==>
              && taken + 4 + |next| <= |incoming|
              && BeValue(incoming[taken..taken + 4]) == |next|
              && incoming[taken + 4..taken + 4 + |next|] == next
  {
    if ComesNext(incoming, taken, next) {
      Powers();
      BeValueOfBytes(|next|, 4);
      hide BeValue, Power256;
      assert |Reply(next)| == 4 + |next|;
      assert incoming[taken..taken + 4] == Reply(next)[..4];
      assert incoming[taken + 4..taken + 4 + |next|] == Reply(next)[4..];
    }
  }

  lemma Joined(s: Bytes, a: nat, b: nat, c: nat)
    requires a <= b <= c <= |s|
    ensures s[a..c] == s[a..b] + s[b..c]
  {
  }

  lemma IsReply(header: Bytes, jpeg: Bytes)
    requires header == BeBytes(|jpeg|, 4)
    ensures header + jpeg == Reply(jpeg)
  {
  }

  /** One camera connection. `incoming` is everything that will ever arrive on it; unless it is
      `reliable` a fault can strike at any point. The ghost `pictures` are the replies taken so far. */
  class Connection {
    const incoming: Bytes
    const reliable: bool
    var taken: nat
    var asked: nat
    ghost var pictures: seq<Bytes>

    ghost predicate Valid()
      reads this
    {
      taken <= |incoming|
    }

    /** What has been taken are whole replies and nothing more, one for each request byte sent. */
    ghost predicate AtBoundary()
      reads this
    {
      && Valid()
      && asked == |pictures|
      && Concat(Replies(pictures)) == incoming[..taken]
      && forall p | p in pictures :: PythonAccepts(p)
    }

    constructor (incoming: Bytes, reliable: bool)
      ensures AtBoundary() && this.incoming == incoming && this.reliable == reliable
      ensures pictures == [] && taken == 0 && asked == 0
    {
      this.incoming, this.reliable, taken, asked, pictures := incoming, reliable, 0, 0, [];
    }

    /** Sends the one byte that asks for a picture. */
    method Ask() returns (sent: bool)
      modifies this`asked
      ensures asked == old(asked) + if sent then 1 else 0
      ensures reliable ==> sent
    {
      sent := *;
      sent := sent || reliable;
      asked := asked + if sent then 1 else 0;
    }

    /** Some of what is there, at most `room` bytes; nothing when the connection closes or times out. */
    method Receive(room: nat) returns (chunk: Bytes)
      requires Valid()
      modifies this`taken
      ensures Valid() && old(taken) <= taken
      ensures chunk == incoming[old(taken)..taken] && |chunk| <= room
      ensures reliable && room > 0 && old(taken) < |incoming| ==> chunk != []
    {
      var count: int := *;
      count := Min(Max(if reliable then 1 else 0, count), Min(room, |incoming| - taken));
      chunk := incoming[taken..taken + count];
      taken := taken + count;
    }

    method ReceiveExact(length: nat) returns (bytes: Option<Bytes>)
      requires Valid()
      modifies this`taken
      ensures Valid() && old(taken) <= taken
      ensures bytes.Some? ==> |bytes.value| == length && bytes.value == incoming[old(taken)..taken]
      ensures reliable && old(taken) + length <= |incoming| ==> bytes.Some?
    {
      var output: Bytes := [];
      while |output| < length
        invariant Valid() && old(taken) <= taken
        invariant output == incoming[old(taken)..taken] && |output| <= length
        decreases length - |output|
      {
        var chunk := Receive(length - |output|);
        if chunk == [] {
          return None;
        }
        output := output + chunk;
      }
      bytes := Some(output);
    }

    method Fetch(ghost next: Bytes) returns (jpeg: Option<Bytes>)
      requires Valid()
      modifies this`taken
      ensures Valid() && old(taken) <= taken
      ensures jpeg.Some? ==> PythonAccepts(jpeg.value) && incoming[old(taken)..taken] == Reply(jpeg.value)
      ensures reliable && ComesNext(incoming, old(taken), next) ==> jpeg == Some(next)
    {
      NextReply(incoming, taken, next);
      hide BeValue, BeBytes, Reply, ComesNext, Messages.HasJpegMarkers;
      var header := ReceiveExact(4);
      if header.None? {
        return None;
      }
      BeBytesOfValue(header.value);
      var length := BeValue(header.value);
      if length == 0 || length > MAX_JPEG {
        return None;
      }
      jpeg := ReceiveExact(length);
      if jpeg.None? || !Messages.HasJpegMarkers(jpeg.value) {
        return None;
      }
      Joined(incoming, old(taken), old(taken) + 4, taken);
      IsReply(header.value, jpeg.value);
    }

    /** Asks for a picture and takes the answer, if it is neither cut short nor malformed. `next`
        stands for any picture that may come. */
    method ReadReply(ghost next: Bytes) returns (jpeg: Option<Bytes>)
      requires AtBoundary()
      modifies this
      ensures Valid()
      ensures jpeg.Some? ==>
                AtBoundary() && pictures == old(pictures) + [jpeg.value] && asked == old(asked) + 1
      ensures reliable && ComesNext(incoming, old(taken), next) ==> jpeg == Some(next)
    {
      var sent := Ask();
      if !sent {
        return None;
      }
      jpeg := Fetch(next);
      if jpeg.Some? {
        OneMoreReply(pictures, jpeg.value);
        hide Reply, Replies, Concat, PythonAccepts, ComesNext;
        assert incoming[..taken] == incoming[..old(taken)] + incoming[old(taken)..taken];
        pictures := pictures + [jpeg.value];
      }
    }
  }

  /** The part of a client that reads pictures. After any fault the connection is given up and the
      next call opens another. */
  class CameraClient {
    var camera: Connection?
    var closed: bool

    ghost predicate Valid()
      reads this, camera
    {
      (camera != null ==> camera.AtBoundary()) && (closed ==> camera == null)
    }

    constructor ()
      ensures Valid() && camera == null && !closed
    {
      camera, closed := null, false;
    }

    method Close()
      modifies this
      ensures Valid() && closed
    {
      camera, closed := null, true;
    }

    /** A closed client refuses; otherwise a picture is asked for and taken. `reachable` tells whether
        a new connection can be made and `incoming` what it would bring. */
    method ReadJpeg(reachable: bool, incoming: Bytes, reliable: bool, ghost next: Bytes) returns (jpeg: Option<Bytes>)
      requires Valid()
      modifies this`camera, camera
      ensures Valid()
      ensures closed ==> jpeg.None?
      ensures jpeg.None? ==> camera == null
      ensures !closed
              && (if old(camera) == null then reachable && reliable && ComesNext(incoming, 0, next)
               else old(camera).reliable && ComesNext(old(camera).incoming, old(camera.taken), next))
              ==> jpeg == Some(next)
      ensures jpeg.Some? ==>
                && camera != null
                && PythonAccepts(jpeg.value)
                && if old(camera) == null
                   then fresh(camera) && camera.incoming == incoming && camera.pictures == [jpeg.value]
                   else camera == old(camera)
                        && camera.pictures == old(if camera == null then [] else camera.pictures) + [jpeg.value]
    {
      if closed {
        return None;
      }
      if camera == null {
        if !reachable {
          return None;
        }
        camera := new Connection(incoming, reliable);
      }
      jpeg := camera.ReadReply(next);
      if jpeg.None? {
        camera := null;
      } else {
        assert jpeg.value in camera.pictures;
      }
    }
  }

  lemma RepliesAreDistinct(a: Bytes, b: Bytes)
    requires |a| < Power256(4) && |b| < Power256(4) && Comparable(Reply(a), Reply(b))
    ensures a == b
  {
    assert Reply(a)[..4] == BeBytes(|a|, 4) && Reply(b)[..4] == BeBytes(|b|, 4);
    assert Reply(a)[..4] == Reply(b)[..4];
    BeValueOfBytes(|a|, 4);
    BeValueOfBytes(|b|, 4);
    assert a == Reply(a)[4..] && b == Reply(b)[4..];
  }

  /** Never a splice: if a connection brings the replies for `frames`, cut off anywhere, then however
      the bytes were chunked the pictures taken from it are the first of those frames, in order. */
  lemma PicturesAreFrames(pictures: seq<Bytes>, frames: seq<Bytes>, incoming: Bytes, taken: nat)
    requires taken <= |incoming| && Concat(Replies(pictures)) == incoming[..taken]
    requires incoming <= Concat(Replies(frames))
    requires forall p | p in pictures :: PythonAccepts(p)
    requires forall f | f in frames :: |f| < Power256(4)
    ensures pictures <= frames
  {
    Powers();
    hide Power256;
    var a, b := Replies(pictures), Replies(frames);
    forall i, j | 0 <= i < |a| && 0 <= j < |b| && Comparable(a[i], b[j]) ensures a[i] == b[j] {
      assert pictures[i] in pictures && frames[j] in frames;
      RepliesAreDistinct(pictures[i], frames[j]);
    }
    FirstWords(a, b);
    forall i | 0 <= i < |pictures| ensures pictures[i] == frames[i] {
      assert pictures[i] in pictures && frames[i] in frames && a[i] == b[i];
      RepliesAreDistinct(pictures[i], frames[i]);
    }
  }
}
