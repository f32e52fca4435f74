/** The buffered half of the Rio package (sp_06_proxylab/proxylab-handout/csapp.c): rio_read,
    rio_readinitb, rio_readnb and rio_readlineb over a read that may be interrupted, fail, or return
    fewer bytes than asked for. */
module RioReader {

  const RIO_BUFSIZE := 8192
  const NEWLINE: Byte := 10
  const INT_LIMIT := 0x8000_0000

  type Byte = b: int | 0 <= b < 256

  function Min(x: int, y: int): int { if x < y then x else y }

  // ----- what the calls are to deliver, independent of how reads are cut up

  /** The length of the line at the front of s: up to and including the first newline, at most limit
      bytes, at most all of s. */
  function LineLength(s: seq<Byte>, limit: nat): (k: nat)
    ensures k <= |s| && k <= limit
  {
    if s == [] || limit == 0 then 0
    else if s[0] == NEWLINE then 1
    else 1 + LineLength(s[1..], limit - 1)
  }

  /** The first k bytes of s are a line of at most limit bytes: no newline before the last of them, and
      they stop short of the limit and of the end only after a newline. */
  ghost predicate IsLine(s: seq<Byte>, limit: nat, k: nat)
  {
    && k <= limit && k <= |s|
    && NEWLINE !in s[..if k == 0 then 0 else k - 1]
    && (k < limit && k < |s| ==> k > 0 && s[k - 1] == NEWLINE)
  }

  /** There is exactly one such k. */
  lemma {:induction false} LineLengthExact(s: seq<Byte>, limit: nat)
    ensures forall k: nat :: IsLine(s, limit, k) <==> k == LineLength(s, limit)
  {
    forall k: nat
      ensures IsLine(s, limit, k) <==> k == LineLength(s, limit)
    {
      if s != [] && limit != 0 && s[0] != NEWLINE {
        LineLengthExact(s[1..], limit - 1);
        if k > 0 {
          LongerLine(s, limit, k);
        }
      } else if s != [] && limit != 0 && 1 < k <= |s| {
        assert s[..k - 1][0] == NEWLINE;
      }
    }
  }

  lemma LongerLine(s: seq<Byte>, limit: nat, k: nat)
    requires s != [] && limit != 0 && s[0] != NEWLINE && k > 0
    ensures IsLine(s, limit, k) <==> IsLine(s[1..], limit - 1, k - 1)
  {
    if k <= |s| && k > 1 {
      assert s[..k - 1] == [s[0]] + s[1..][..k - 2];
    }
  }

  /** One more byte without a newline leaves the rest of the line. */
  lemma {:induction false} LineLengthStep(s: seq<Byte>, limit: nat, k: nat)
    requires k <= |s| && k <= limit && NEWLINE !in s[..k]
    ensures LineLength(s, limit) == k + LineLength(s[k..], limit - k)
  {
    if k > 0 {
      assert s[0] == s[..k][0];
      assert s[1..][..k - 1] == s[..k][1..];
      LineLengthStep(s[1..], limit - 1, k - 1);
      assert s[1..][k - 1..] == s[k..];
    }
  }

  datatype Request = Bytes(n: nat) | Line(maxlen: nat)

  /** How many bytes a request takes from the unread bytes s. */
  function Taken(s: seq<Byte>, q: Request): (k: nat)
    ensures k <= |s|
  {
    match q
    case Bytes(n) => Min(n, |s|)
    case Line(maxlen) => if maxlen == 0 then 0 else LineLength(s, maxlen - 1)
  }

  /** The answers to a list of requests. */
  function Answers(s: seq<Byte>, qs: seq<Request>): (r: seq<seq<Byte>>)
    ensures |r| == |qs|
  {
    if qs == [] then []
    else [s[..Taken(s, qs[0])]] + Answers(s[Taken(s, qs[0])..], qs[1..])
  }

  function Concat(parts: seq<seq<Byte>>): seq<Byte>
  {
    if parts == [] then [] else Concat(parts[..|parts| - 1]) + parts[|parts| - 1]
  }

  /** Fewer bytes than a block request asks for, or an empty line where one byte would have fit. */
  predicate ShortAnswer(q: Request, answer: seq<Byte>)
  {
    match q
    case Bytes(n) => |answer| < n
    case Line(maxlen) => 1 < maxlen && answer == []
  }

  /** A short answer takes all there is. */
  lemma ShortTakesAll(s: seq<Byte>, q: Request)
    requires ShortAnswer(q, s[..Taken(s, q)])
    ensures Taken(s, q) == |s|
  {
    if q.Line? {
      LineLengthExact(s, q.maxlen - 1);
    }
  }

  lemma Within(a: seq<Byte>, p: nat, n: nat, i: nat, j: nat)
    requires p + n <= |a| && i <= j <= n
    ensures a[p..p + n][i..j] == a[p + i..p + j]
  {
    var x, y := a[p..p + n][i..j], a[p + i..p + j];
    assert forall k :: 0 <= k < j - i ==> x[k] == y[k];
  }

  lemma SubSlices(a: seq<Byte>, p: nat, b: seq<Byte>, q: nat, n: nat, k: nat)
    requires k <= n && p + n <= |a| && q + n <= |b| && a[p..p + n] == b[q..q + n]
    ensures a[p..p + k] == b[q..q + k] && a[p + k..p + n] == b[q + k..q + n]
  {
    Within(a, p, n, 0, k);
    Within(b, q, n, 0, k);
    Within(a, p, n, k, n);
    Within(b, q, n, k, n);
  }

  /** The first k bytes of u are the bytes of the stream from c on. */
  ghost predicate Delivered(u: seq<Byte>, stream: seq<Byte>, c: nat, k: nat)
  {
    k <= |u| && c + k <= |stream| && u[..k] == stream[c..c + k]
  }

  lemma DeliveredMore(u: seq<Byte>, v: seq<Byte>, stream: seq<Byte>, c: nat, k: nat, r: nat)
    requires Delivered(u, stream, c, k) && |v| == |u| && k + r <= |v| && c + k + r <= |stream|
    requires forall i :: 0 <= i < k ==> v[i] == u[i]
    requires v[k..k + r] == stream[c + k..c + k + r]
    ensures Delivered(v, stream, c, k + r)
  {
    assert v[..k] == u[..k];
    assert v[..k + r] == v[..k] + v[k..k + r];
    assert stream[c..c + k + r] == stream[c..c + k] + stream[c + k..c + k + r];
  }

  lemma NextByte(u: seq<Byte>, stream: seq<Byte>, c: nat, k: nat, b: Byte)
    requires Delivered(u, stream, c, k) && k < |u| && c + k + 1 <= |stream| && [b] == stream[c + k..c + k + 1]
    ensures Delivered(u[k := b], stream, c, k + 1) && b == stream[c..][k]
  {
    assert [b][0] == b;
    DeliveredMore(u, u[k := b], stream, c, k, 1);
  }

  lemma NothingDelivered(u: seq<Byte>, stream: seq<Byte>, c: nat)
    requires c <= |stream|
    ensures Delivered(u, stream, c, 0)
  {
  }

  lemma DeliveredKept(u: seq<Byte>, v: seq<Byte>, stream: seq<Byte>, c: nat, k: nat)
    requires Delivered(u, stream, c, k) && |v| == |u| && forall i :: 0 <= i < k ==> v[i] == u[i]
    ensures Delivered(v, stream, c, k)
  {
    assert v[..k] == u[..k];
  }

  /** The first k bytes of s hold no newline. */
  ghost predicate Plain(s: seq<Byte>, k: nat)
  {
    k <= |s| && NEWLINE !in s[..k]
  }

  lemma NothingPlain(s: seq<Byte>)
    ensures Plain(s, 0)
  {
  }

  lemma PlainNext(s: seq<Byte>, k: nat)
    requires Plain(s, k) && k < |s| && s[k] != NEWLINE
    ensures Plain(s, k + 1)
  {
    assert s[..k + 1] == s[..k] + [s[k]];
  }

  /** How the loop of rio_readlineb ends: at the limit, at the end of the stream, or after a newline. */
  lemma LineEnds(s: seq<Byte>, limit: nat, k: nat)
    requires Plain(s, k) && k <= limit
    ensures k == limit || k == |s| ==> LineLength(s, limit) == k
    ensures k < limit && k < |s| && s[k] == NEWLINE ==> LineLength(s, limit) == k + 1
  {
    LineLengthStep(s, limit, k);
  }

  // ----- the descriptor

  /** What one call of read does: EINTR, another error, or up to k bytes. */
  datatype Outcome = Interrupted | Failed | Short(k: nat)

  ghost predicate NoFailure(script: seq<Outcome>)
  {
    Failed !in script
  }

  /** A descriptor with the stream still to come and the outcomes of the next reads; once the script
      has run out, reads return as much as they can. */
  class Descriptor {
    const stream: seq<Byte>
    var pos: nat
    var script: seq<Outcome>

    constructor (stream: seq<Byte>, script: seq<Outcome>)
      ensures this.stream == stream && this.script == script && pos == 0
    {
      this.stream, this.script, pos := stream, script, 0;
    }

    /** read(2) into the front of buf; r < 0 on error, and interrupted says whether errno is EINTR. */
    method Read(buf: array<Byte>) returns (r: int, interrupted: bool)
      requires pos <= |stream| && 0 < buf.Length
      modifies this, buf
      ensures pos <= |stream| && -1 <= r <= buf.Length
      ensures r < 0 ==> pos == old(pos) && |script| < |old(script)|
      ensures r < 0 && !interrupted ==> Failed in old(script)
      ensures r >= 0 ==> pos == old(pos) + r && buf[..r] == stream[old(pos)..pos] && |script| <= |old(script)|
      ensures r == 0 <==> r >= 0 && old(pos) == |stream|
      ensures forall o :: o in script ==> o in old(script)
    {
      interrupted := false;
      var most := Min(buf.Length, |stream| - pos);
      if script != [] {
        var o := script[0];
        script := script[1..];
        match o {
          case Interrupted => return -1, true;
          case Failed => return -1, false;
          case Short(k) => most := Min(most, if k == 0 then 1 else k);
        }
      }
      r := most;
      forall i | 0 <= i < r {
        buf[i] := stream[pos + i];
      }
      pos := pos + r;
    }
  }

  // ----- the buffered reader

  class Rio {
    const fd: Descriptor
    const buf: array<Byte>
    var cnt: int
    var bufptr: nat

    ghost predicate Valid()
      reads this, fd, buf
    {
      && buf.Length == RIO_BUFSIZE && fd.pos <= |fd.stream|
      && -1 <= cnt && (cnt > 0 ==> bufptr + cnt <= buf.Length && cnt <= fd.pos)
      && (cnt > 0 ==> buf[bufptr..bufptr + cnt] == fd.stream[fd.pos - cnt..fd.pos])
    }

    /** How much of the stream has been handed to the callers. */
    ghost function Consumed(): (c: nat)
      requires Valid()
      reads this, fd, buf
      ensures c <= |fd.stream|
    {
      if cnt > 0 then fd.pos - cnt else fd.pos
    }

    /** What is still to be handed out. */
    ghost function Rest(): seq<Byte>
      requires Valid()
      reads this, fd, buf
    {
      fd.stream[Consumed()..]
    }

    /** rio_readinitb on a new buffer. */
    constructor (fd: Descriptor)
      requires fd.pos <= |fd.stream|
      ensures Valid() && this.fd == fd && fresh(buf) && Consumed() == fd.pos
    {
      this.fd := fd;
      buf := new Byte[RIO_BUFSIZE](_ => 0);
      cnt, bufptr := 0, 0;
    }

    /** The loop of rio_read: refill the empty buffer, repeating interrupted reads.  status is 1 when
        there are unread bytes, 0 at the end of the stream, -1 on an error. */
    method Refill() returns (status: int)
      requires Valid()
      modifies this, fd, buf
      ensures Valid() && Consumed() == old(Consumed()) && -1 <= status <= 1
      ensures status == 1 <==> cnt > 0
      ensures status == 0 ==> Consumed() == |fd.stream|
      ensures status == -1 ==> Failed in old(fd.script)
      ensures forall o :: o in fd.script ==> o in old(fd.script)
    {
      while cnt <= 0
        invariant Valid() && Consumed() == old(Consumed())
        invariant forall o :: o in fd.script ==> o in old(fd.script)
        decreases if cnt <= 0 then 1 else 0, |fd.script|
      {
        var interrupted;
        cnt, interrupted := fd.Read(buf);
        if cnt < 0 {
          if !interrupted {
            return -1;
          }
        } else if cnt == 0 {
          return 0;
        } else {
          bufptr := 0;
        }
      }
      status := 1;
    }

    /** memcpy from the unread part of the buffer. */
    method CopyOut(usrbuf: array<Byte>, off: nat, k: nat)
      requires usrbuf != buf && off + k <= usrbuf.Length && bufptr + k <= buf.Length
      modifies usrbuf
      ensures usrbuf[off..off + k] == buf[bufptr..bufptr + k]
      ensures forall i :: 0 <= i < usrbuf.Length && !(off <= i < off + k) ==> usrbuf[i] == old(usrbuf[i])
    {
      var j := 0;
      while j < k
        invariant 0 <= j <= k && usrbuf[off..off + j] == buf[bufptr..bufptr + j]
        invariant forall i :: 0 <= i < usrbuf.Length && !(off <= i < off + j) ==> usrbuf[i] == old(usrbuf[i])
      {
        usrbuf[off + j] := buf[bufptr + j];
        j := j + 1;
      }
    }

    /** The end of rio_read: hand out r of the unread bytes. */
    method TakeBuffered(usrbuf: array<Byte>, off: nat, r: nat)
      requires Valid() && usrbuf != buf && off + r <= usrbuf.Length && r <= cnt && 0 < cnt
      modifies this, usrbuf
      ensures Valid() && Consumed() == old(Consumed()) + r
      ensures usrbuf[off..off + r] == fd.stream[old(Consumed())..old(Consumed()) + r]
      ensures forall i :: 0 <= i < usrbuf.Length && !(off <= i < off + r) ==> usrbuf[i] == old(usrbuf[i])
    {
      SubSlices(buf[..], bufptr, fd.stream, fd.pos - cnt, cnt, r);
      CopyOut(usrbuf, off, r);
      bufptr := bufptr + r;
      cnt := cnt - r;
    }

    /** rio_read: at least one byte if there is one, at most what is buffered. */
    method RioRead(usrbuf: array<Byte>, off: nat, n: nat) returns (r: int)
      requires Valid() && usrbuf != buf && off + n <= usrbuf.Length
      modifies this, fd, buf, usrbuf
      ensures Valid() && -1 <= r <= n
      ensures r == -1 ==> Consumed() == old(Consumed()) && Failed in old(fd.script)
      ensures r >= 0 ==> Consumed() == old(Consumed()) + r
      ensures r >= 0 ==> usrbuf[off..off + r] == fd.stream[old(Consumed())..old(Consumed()) + r]
      ensures r == 0 && n > 0 ==> Consumed() == |fd.stream|
      ensures forall i :: 0 <= i < usrbuf.Length && !(off <= i < off + r) ==> usrbuf[i] == old(usrbuf[i])
      ensures forall o :: o in fd.script ==> o in old(fd.script)
    {
      hide Valid, Consumed;
      var status := Refill();
      if status < 1 {
        return status;
      }
      r := if cnt < n then cnt else n;
      TakeBuffered(usrbuf, off, r);
    }

    /** rio_readnb: n bytes, fewer only at the end of the stream.  On an error other than EINTR the
        bytes read so far stay in usrbuf, uncounted. */
    method ReadNb(usrbuf: array<Byte>, n: nat) returns (r: int)
      requires Valid() && usrbuf != buf && n <= usrbuf.Length
      modifies this, fd, buf, usrbuf
      ensures Valid()
      ensures NoFailure(old(fd.script)) ==> r >= 0 && NoFailure(fd.script)
      ensures r < 0 ==> r == -1 && old(Consumed()) <= Consumed() < old(Consumed()) + n
      ensures r >= 0 ==> r == Taken(old(Rest()), Bytes(n)) && Consumed() == old(Consumed()) + r
      ensures Delivered(usrbuf[..], fd.stream, old(Consumed()), Consumed() - old(Consumed()))
      ensures forall i :: Consumed() - old(Consumed()) <= i < usrbuf.Length ==> usrbuf[i] == old(usrbuf[i])
    {
      hide Delivered;
      var nleft := n;
      ghost var c := Consumed();
      NothingDelivered(usrbuf[..], fd.stream, c);
      while nleft > 0
        invariant Valid() && 0 <= nleft <= n && Consumed() == c + (n - nleft)
        invariant Delivered(usrbuf[..], fd.stream, c, n - nleft)
        invariant forall i :: n - nleft <= i < usrbuf.Length ==> usrbuf[i] == old(usrbuf[i])
        invariant forall o :: o in fd.script ==> o in old(fd.script)
      {
        ghost var u := usrbuf[..];
        var nread := RioRead(usrbuf, n - nleft, nleft);
        if nread < 0 {
          assert usrbuf[..] == u;
          return -1;
        } else if nread == 0 {
          assert usrbuf[..] == u;
          break;
        }
        DeliveredMore(u, usrbuf[..], fd.stream, c, n - nleft, nread);
        nleft := nleft - nread;
      }
      r := n - nleft;
    }

    /** One step of the loop of rio_readlineb: read a byte and store it after the first k. */
    method StoreNext(usrbuf: array<Byte>, k: nat, ghost c: nat) returns (rc: int, b: Byte)
      requires Valid() && usrbuf != buf && k < usrbuf.Length
      requires Consumed() == c + k && Delivered(usrbuf[..], fd.stream, c, k)
      modifies this, fd, buf, usrbuf
      ensures Valid() && -1 <= rc <= 1
      ensures rc == 1 ==> Consumed() == c + k + 1 && Delivered(usrbuf[..], fd.stream, c, k + 1) && b == fd.stream[c + k]
      ensures rc != 1 ==> Consumed() == c + k && usrbuf[..] == old(usrbuf[..])
      ensures rc == 0 ==> Consumed() == |fd.stream|
      ensures rc == -1 ==> Failed in old(fd.script)
      ensures forall o :: o in fd.script ==> o in old(fd.script)
    {
      hide Delivered, Valid, Consumed;
      ghost var u := usrbuf[..];
      var one := new Byte[1];
      b := 0;
      rc := RioRead(one, 0, 1);
      assert usrbuf[..] == u;
      if rc == 1 {
        b := one[0];
        assert one[0..1] == [b];
        NextByte(u, fd.stream, c, k, b);
        usrbuf[k] := b;
        assert usrbuf[..] == u[k := b];
      }
    }

    /** rio_readlineb: a line, or the part of it that fits, with a terminating NUL.  Nothing is
        stored when the stream has already ended. */
    method ReadLineb(usrbuf: array<Byte>, maxlen: nat) returns (r: int)
      requires Valid() && usrbuf != buf && 0 < usrbuf.Length && maxlen <= usrbuf.Length && maxlen < INT_LIMIT
      modifies this, fd, buf, usrbuf
      ensures Valid()
      ensures NoFailure(old(fd.script)) ==> r >= 0 && NoFailure(fd.script)
      ensures r < 0 ==> r == -1 && old(Consumed()) <= Consumed() < old(Consumed()) + maxlen
      ensures r >= 0 ==> r == Taken(old(Rest()), Line(maxlen)) && Consumed() == old(Consumed()) + r
      ensures r >= 0 ==> IsLine(old(Rest()), if maxlen == 0 then 0 else maxlen - 1, r)
      ensures Delivered(usrbuf[..], fd.stream, old(Consumed()), Consumed() - old(Consumed()))
      ensures r > 0 ==> usrbuf[r] == 0
      ensures r == 0 && maxlen > 1 ==> usrbuf[..] == old(usrbuf[..]) && old(Consumed()) == |fd.stream|
    {
      hide Delivered, Plain, LineLength, Valid, Consumed, IsLine;
      var n := 1;
      ghost var c, rest := Consumed(), Rest();
      ghost var limit := if maxlen == 0 then 0 else maxlen - 1;
      NothingDelivered(usrbuf[..], fd.stream, c);
      NothingPlain(rest);
      LineLengthExact(rest, limit);
      LineEnds(rest, limit, 0);
      while n < maxlen
        invariant Valid() && 1 <= n && (n <= maxlen || n == 1) && Consumed() == c + (n - 1)
        invariant Plain(rest, n - 1) && (maxlen <= n ==> LineLength(rest, limit) == n - 1)
        invariant Delivered(usrbuf[..], fd.stream, c, n - 1)
        invariant n == 1 ==> usrbuf[..] == old(usrbuf[..])
        invariant forall o :: o in fd.script ==> o in old(fd.script)
      {
        LineEnds(rest, limit, n - 1);
        var rc, b := StoreNext(usrbuf, n - 1, c);
        if rc == 1 {
          if b == NEWLINE {
            n := n + 1;
            break;
          }
          PlainNext(rest, n - 1);
        } else if rc == 0 {
          if n == 1 {
            return 0;
          }
          break;
        } else {
          return -1;
        }
        n := n + 1;
        LineEnds(rest, limit, n - 1);
      }
      ghost var v := usrbuf[..];
      usrbuf[n - 1] := 0;
      DeliveredKept(v, usrbuf[..], fd.stream, c, n - 1);
      r := n - 1;
    }
  }

  // ----- whole runs of calls

  /** The request fits into a buffer of n bytes. */
  predicate FitsIn(q: Request, n: nat)
  {
    match q
    case Bytes(k) => k <= n
    case Line(maxlen) => maxlen <= n && maxlen < INT_LIMIT
  }

  lemma AppendAnswer(stream: seq<Byte>, c: nat, d: nat, k: nat, out: seq<seq<Byte>>, answer: seq<Byte>)
    requires c <= d && d + k <= |stream|
    requires Concat(out) == stream[c..d] && answer == stream[d..d + k]
    ensures Concat(out + [answer]) == stream[c..d + k] && answer == stream[d..][..k]
  {
    assert (out + [answer])[..|out|] == out;
    assert stream[c..d + k] == stream[c..d] + stream[d..d + k];
  }

  /** One call of rio_readnb or rio_readlineb, whichever the request is. */
  method Call(rio: Rio, usrbuf: array<Byte>, q: Request) returns (answer: seq<Byte>)
    requires rio.Valid() && usrbuf != rio.buf && 0 < usrbuf.Length && FitsIn(q, usrbuf.Length)
    requires NoFailure(rio.fd.script)
    modifies rio, rio.fd, rio.buf, usrbuf
    ensures rio.Valid() && NoFailure(rio.fd.script)
    ensures var k := Taken(old(rio.Rest()), q);
      && rio.Consumed() == old(rio.Consumed()) + k
      && answer == rio.fd.stream[old(rio.Consumed())..old(rio.Consumed()) + k]
  {
    hide Rio.Valid, Rio.Consumed, Taken;
    var r;
    match q {
      case Bytes(n) => r := rio.ReadNb(usrbuf, n);
      case Line(maxlen) => r := rio.ReadLineb(usrbuf, maxlen);
    }
    answer := usrbuf[..r];
  }

  /** A client that makes any list of calls on one reader.  Whatever the reads underneath return and
      however often they are interrupted, the answers are the ones above; put end to end they are the
      next part of the stream, without loss, repetition or reordering, and after a short answer
      nothing is left. */
  method Serve(rio: Rio, usrbuf: array<Byte>, qs: seq<Request>) returns (out: seq<seq<Byte>>)
    requires rio.Valid() && usrbuf != rio.buf && 0 < usrbuf.Length
    requires NoFailure(rio.fd.script) && forall q :: q in qs ==> FitsIn(q, usrbuf.Length)
    modifies rio, rio.fd, rio.buf, usrbuf
    ensures rio.Valid() && NoFailure(rio.fd.script)
    ensures out == Answers(old(rio.Rest()), qs)
    ensures old(rio.Consumed()) <= rio.Consumed() && Concat(out) == rio.fd.stream[old(rio.Consumed())..rio.Consumed()]
    ensures qs != [] && ShortAnswer(qs[|qs| - 1], out[|qs| - 1]) ==> rio.Consumed() == |rio.fd.stream|
  {
    hide Rio.Valid, Rio.Consumed, Taken, Concat, Answers, ShortAnswer;
    ghost var c, rest := rio.Consumed(), rio.Rest();
    out := [];
    ConcatNothing();
    assert qs[0..] == qs;
    for i := 0 to |qs|
      invariant rio.Valid() && NoFailure(rio.fd.script) && c <= rio.Consumed()
      invariant |out| == i && Answers(rest, qs) == out + Answers(rio.Rest(), qs[i..])
      invariant Concat(out) == rio.fd.stream[c..rio.Consumed()]
      invariant i > 0 && ShortAnswer(qs[i - 1], out[i - 1]) ==> rio.Consumed() == |rio.fd.stream|
    {
      ghost var d, left := rio.Consumed(), rio.Rest();
      var answer := Call(rio, usrbuf, qs[i]);
      ghost var k := Taken(left, qs[i]);
      AppendAnswer(rio.fd.stream, c, d, k, out, answer);
      assert left[k..] == rio.Rest();
      AnswersNext(out, left, qs, i);
      if ShortAnswer(qs[i], answer) {
        ShortTakesAll(left, qs[i]);
      }
      out := out + [answer];
    }
  }

  lemma AnswersNext(out: seq<seq<Byte>>, left: seq<Byte>, qs: seq<Request>, i: nat)
    requires i < |qs|
    ensures var k := Taken(left, qs[i]); out + Answers(left, qs[i..]) == out + [left[..k]] + Answers(left[k..], qs[i + 1..])
  {
    assert qs[i..][0] == qs[i] && qs[i..][1..] == qs[i + 1..];
  }

  lemma ConcatNothing()
    ensures Concat([]) == []
  {
  }
}
