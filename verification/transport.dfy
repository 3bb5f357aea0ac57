/** The server's read-exact and write-all loops (server.c
    read_request_payload / write_response_payload). The socket is replaced by
    the sequence of answers the successive `read`/`send` calls give. */
module Transport {
  import opened Bytes
  import opened Status

  /** What one `read` call returns: some bytes (none means the peer closed
      the connection, `read` returned 0), or an error (`read` returned < 0). */
  datatype ReadReply = Delivered(bytes: seq<Byte>) | ReadFailed

  /** `read` never returns more than it was asked for: the part of a reply
      that lands in the buffer when `remaining` bytes are still wanted. */
  function Take(r: ReadReply, remaining: nat): (c: seq<Byte>)
    ensures |c| <= remaining
    ensures r.Delivered? ==> c == r.bytes[..if |r.bytes| <= remaining then |r.bytes| else remaining]
    ensures r.ReadFailed? ==> c == []
  {
    match r
    case ReadFailed => []
    case Delivered(b) => if |b| <= remaining then b else b[..remaining]
  }

  /** The pieces the successive reads place in the buffer, in order: each
      read is asked for what the earlier ones left missing. */
  function Chunks(rs: seq<ReadReply>, remaining: nat): (cs: seq<seq<Byte>>)
    ensures |cs| == |rs| && |Flatten(cs)| <= remaining
  {
    if |rs| == 0 then []
    else
      var init := Chunks(rs[..|rs| - 1], remaining);
      var c := Take(rs[|rs| - 1], remaining - |Flatten(init)|);
      FlattenAppend(init, c);
      init + [c]
  }

  /** One more read places its piece behind the others. */
  lemma ChunksSnoc(rs: seq<ReadReply>, r: ReadReply, n: nat)
    ensures Chunks(rs + [r], n) == Chunks(rs, n) + [Take(r, n - |Flatten(Chunks(rs, n))|)]
  {
    var s := rs + [r];
    assert s[..|s| - 1] == rs && s[|s| - 1] == r;
    var init := Chunks(rs, n);
    assert Chunks(s, n) == init + [Take(r, n - |Flatten(init)|)];
  }

  /** How a read loop ends: with a status after `calls` reads, or waiting in
      a `read` that the given answers do not cover. */
  datatype ReadOutcome =
    | ReadDone(status: StatusCode, data: seq<Byte>, calls: nat)
    | ReadBlocked(data: seq<Byte>)

  /** The answers before the last one were all non-empty deliveries: nothing
      is retried after an error or a zero-byte read. */
  predicate AllProgress(rs: seq<ReadReply>)
  {
    forall j :: 0 <= j < |rs| ==> rs[j].Delivered? && |rs[j].bytes| > 0
  }

  /** read_request_payload: read exactly `nmemb` bytes. */
  method ReadExact(nmemb: nat, replies: seq<ReadReply>) returns (out: ReadOutcome)
    ensures nmemb == 0 ==> out == ReadDone(Ok, [], 0)
    ensures out.ReadDone? ==> out.status in {Ok, NetworkError, ConnectionClosed} && out.calls <= |replies|
    ensures out.ReadDone? && out.status == Ok
            ==> |out.data| == nmemb && out.data == Flatten(Chunks(replies[..out.calls], nmemb))
                && AllProgress(replies[..out.calls])
    ensures out.ReadDone? && out.status == NetworkError
            ==> out.calls >= 1 && replies[out.calls - 1] == ReadFailed && AllProgress(replies[..out.calls - 1])
    ensures out.ReadDone? && out.status == ConnectionClosed
            ==> out.calls >= 1 && replies[out.calls - 1] == Delivered([]) && AllProgress(replies[..out.calls - 1])
    ensures out.ReadBlocked? ==> out.data == Flatten(Chunks(replies, nmemb)) && |out.data| < nmemb
                                 && AllProgress(replies)
  {
    if nmemb == 0 {
      return ReadDone(Ok, [], 0);
    }
    var data: seq<Byte> := [];
    var i := 0;
    while true
      invariant 0 <= i <= |replies|
      invariant data == Flatten(Chunks(replies[..i], nmemb))
      invariant |data| < nmemb
      invariant AllProgress(replies[..i])
      decreases nmemb - |data|
    {
      if i == |replies| {
        assert replies[..i] == replies;
        return ReadBlocked(data);
      }
      var reply := replies[i];
      if reply.ReadFailed? {
        return ReadDone(NetworkError, data, i + 1);
      }
      if |reply.bytes| == 0 {
        return ReadDone(ConnectionClosed, data, i + 1);
      }
      ReadStep(replies, i, nmemb, data);
      data := data + Take(reply, nmemb - |data|);
      i := i + 1;
      if |data| == nmemb {
        return ReadDone(Ok, data, i);
      }
    }
  }

  /** A non-empty delivery adds its piece and keeps the progress record. */
  lemma ReadStep(replies: seq<ReadReply>, i: nat, nmemb: nat, data: seq<Byte>)
    requires i < |replies| && data == Flatten(Chunks(replies[..i], nmemb)) && |data| < nmemb
    requires AllProgress(replies[..i]) && replies[i].Delivered? && |replies[i].bytes| > 0
    ensures var next := data + Take(replies[i], nmemb - |data|);
            && next == Flatten(Chunks(replies[..i + 1], nmemb))
            && |data| < |next| <= nmemb
            && AllProgress(replies[..i + 1])
  {
    assert replies[..i + 1] == replies[..i] + [replies[i]];
    ChunksSnoc(replies[..i], replies[i], nmemb);
    FlattenAppend(Chunks(replies[..i], nmemb), Take(replies[i], nmemb - |data|));
  }

  /** What one `send` call returns: a byte count, or an error (< 0). */
  datatype SendReply = Sent(count: nat) | SendFailed

  /** `send` never sends more than it was asked for: the bytes one answer
      accounts for when `remaining` are still to go (none on an error). */
  function Counted(r: SendReply, remaining: nat): (k: nat)
    ensures k <= remaining
    ensures r.Sent? && r.count <= remaining ==> k == r.count
    ensures r.Sent? && r.count > remaining ==> k == remaining
    ensures r.SendFailed? ==> k == 0
  {
    match r
    case SendFailed => 0
    case Sent(c) => if c <= remaining then c else remaining
  }

  /** The bytes the successive sends have put on the socket, each asked for
      what the earlier ones left unsent. */
  function SentTotal(rs: seq<SendReply>, n: nat): (t: nat)
    ensures t <= n
  {
    if |rs| == 0 then 0
    else
      var init := SentTotal(rs[..|rs| - 1], n);
      init + Counted(rs[|rs| - 1], n - init)
  }

  /** One more send adds what it accounts for. */
  lemma SentTotalSnoc(rs: seq<SendReply>, r: SendReply, n: nat)
    ensures SentTotal(rs + [r], n) == SentTotal(rs, n) + Counted(r, n - SentTotal(rs, n))
  {
    var s := rs + [r];
    assert s[..|s| - 1] == rs && s[|s| - 1] == r;
  }

  /** The answers were all positive byte counts: nothing is retried after
      an error or a zero-byte send. */
  predicate AllSent(rs: seq<SendReply>)
  {
    forall j :: 0 <= j < |rs| ==> rs[j].Sent? && rs[j].count > 0
  }

  datatype WriteOutcome =
    | WriteDone(status: StatusCode, sent: seq<Byte>, calls: nat)
    | WriteBlocked(sent: seq<Byte>)

  /** write_response_payload: send all of `msg`; a zero-byte send already
      counts as a closed connection. `sent` is what reached the socket: the
      message's first `SentTotal` bytes, in order. */
  method WriteAll(msg: seq<Byte>, replies: seq<SendReply>) returns (out: WriteOutcome)
    ensures |msg| == 0 ==> out == WriteDone(Ok, [], 0)
    ensures out.WriteDone? ==> out.status in {Ok, NetworkError, ConnectionClosed} && out.calls <= |replies|
    ensures out.WriteDone? && out.status == Ok && |msg| > 0
            ==> && out.sent == msg && out.calls >= 1
                && SentTotal(replies[..out.calls], |msg|) == |msg|
                && SentTotal(replies[..out.calls - 1], |msg|) < |msg|
                && AllSent(replies[..out.calls])
    ensures out.WriteDone? && out.status != Ok
            ==> && out.calls >= 1 && AllSent(replies[..out.calls - 1])
                && out.sent == msg[..SentTotal(replies[..out.calls - 1], |msg|)] && |out.sent| < |msg|
                && (out.status == NetworkError <==> replies[out.calls - 1] == SendFailed)
                && (out.status == ConnectionClosed <==> replies[out.calls - 1] == Sent(0))
    ensures out.WriteBlocked? ==> && AllSent(replies)
                                  && out.sent == msg[..SentTotal(replies, |msg|)] && |out.sent| < |msg|
  {
    if |msg| == 0 {
      return WriteDone(Ok, [], 0);
    }
    var off := 0;
    var i := 0;
    while true
      invariant 0 <= i <= |replies|
      invariant off == SentTotal(replies[..i], |msg|) && off < |msg|
      invariant AllSent(replies[..i])
      decreases |msg| - off
    {
      if i == |replies| {
        assert replies[..i] == replies;
        return WriteBlocked(msg[..off]);
      }
      var reply := replies[i];
      assert replies[..i + 1] == replies[..i] + [reply];
      if reply.SendFailed? {
        return WriteDone(NetworkError, msg[..off], i + 1);
      }
      if reply.count == 0 {
        return WriteDone(ConnectionClosed, msg[..off], i + 1);
      }
      var n := if reply.count <= |msg| - off then reply.count else |msg| - off;
      SentTotalSnoc(replies[..i], reply, |msg|);
      off := off + n;
      i := i + 1;
      if off == |msg| {
        assert msg[..off] == msg;
        return WriteDone(Ok, msg, i);
      }
    }
  }
}
