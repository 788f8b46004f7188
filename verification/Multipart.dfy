/** The streaming search of http.c for the end of a multipart body part: whatever way the
    body is cut into reads, the same bytes are delivered. */
module Multipart {
  import opened Bytes
  import opened Chains

  // ---- byte_str ----

  /** The needle stands at i. */
  ghost predicate MatchAt(h: seq<byte>, needle: seq<byte>, i: nat) {
    i + |needle| <= |h| && h[i..i + |needle|] == needle
  }

  ghost predicate NoneBefore(h: seq<byte>, needle: seq<byte>, n: nat) {
    forall i: nat :: i < n ==> !MatchAt(h, needle, i)
  }

  /** The needle stands first at p. */
  ghost predicate FirstAt(h: seq<byte>, needle: seq<byte>, p: nat) {
    MatchAt(h, needle, p) && NoneBefore(h, needle, p)
  }

  /** `str_start`, where there is room for the needle. */
  method StrStart(h: seq<byte>, i: nat, needle: seq<byte>) returns (r: bool)
    requires i + |needle| <= |h|
    ensures r <==> MatchAt(h, needle, i)
  {
    var k := 0;
    while k < |needle|
      invariant k <= |needle| && h[i..i + k] == needle[..k]
    {
      if h[i + k] != needle[k] {
        assert h[i..i + |needle|][k] != needle[k];
        return false;
      }
      k := k + 1;
    }
    return true;
  }

  /** `byte_str`: the first place of the needle, or the length. */
  method ByteStr(h: seq<byte>, needle: seq<byte>) returns (pos: nat)
    requires |needle| > 0
    ensures pos < |h| ==> FirstAt(h, needle, pos)
    ensures pos >= |h| ==> pos == |h| && NoneBefore(h, needle, |h|)
  {
    hide MatchAt;
    TooLate(h, needle);
    if |h| >= |needle| {
      var i := 0;
      while i <= |h| - |needle|
        invariant i <= |h| - |needle| + 1 && NoneBefore(h, needle, i)
      {
        var found := StrStart(h, i, needle);
        if found { return i; }
        i := i + 1;
      }
    }
    return |h|;
  }

  lemma TooLate(h: seq<byte>, needle: seq<byte>)
    ensures forall i: nat :: i + |needle| > |h| ==> !MatchAt(h, needle, i)
  {
  }

  /** A match inside a prefix is a match in the whole, and the other way about. */
  lemma MatchInPrefix(a: seq<byte>, b: seq<byte>, needle: seq<byte>, i: nat)
    requires i + |needle| <= |a|
    ensures MatchAt(a + b, needle, i) <==> MatchAt(a, needle, i)
  {
    assert (a + b)[i..i + |needle|] == a[i..i + |needle|];
  }

  /** A match in a suffix is a match in the whole, shifted. */
  lemma MatchInSuffix(a: seq<byte>, b: seq<byte>, needle: seq<byte>, i: nat)
    ensures MatchAt(a + b, needle, |a| + i) <==> MatchAt(b, needle, i)
  {
    if i + |needle| <= |b| {
      assert (a + b)[|a| + i..|a| + i + |needle|] == b[i..i + |needle|];
    }
  }

  lemma OneFirst(h: seq<byte>, needle: seq<byte>, p: nat, q: nat)
    requires FirstAt(h, needle, p) && FirstAt(h, needle, q)
    ensures p == q
  {
    hide MatchAt;
  }

  /** What has been searched stays searched when more bytes come. */
  lemma SearchedStays(h: seq<byte>, more: seq<byte>, needle: seq<byte>)
    requires NoneBefore(h, needle, |h|) && |needle| > 0
    ensures |h| >= |needle| ==> NoneBefore(h + more, needle, |h| - |needle| + 1)
  {
    hide MatchAt;
    if |h| >= |needle| {
      forall i: nat | i < |h| - |needle| + 1 ensures !MatchAt(h + more, needle, i) {
        MatchInPrefix(h, more, needle, i);
      }
    }
  }

  lemma ResumeStays(h: seq<byte>, more: seq<byte>, needle: seq<byte>, n: nat)
    requires NoneBefore(h, needle, n) && (n > 0 ==> n + |needle| <= |h|)
    ensures NoneBefore(h + more, needle, n)
  {
    hide MatchAt;
    forall i: nat | i < n ensures !MatchAt(h + more, needle, i) { MatchInPrefix(h, more, needle, i); }
  }

  /** The first match is decided by the bytes up to its end. */
  lemma FirstStays(h: seq<byte>, more: seq<byte>, needle: seq<byte>, p: nat)
    requires FirstAt(h, needle, p)
    ensures FirstAt(h + more, needle, p)
  {
    assert p + |needle| <= |h|;
    hide MatchAt;
    forall i: nat | i <= p ensures MatchAt(h + more, needle, i) <==> MatchAt(h, needle, i) {
      MatchInPrefix(h, more, needle, i);
    }
  }

  // ---- One part of a multipart body ----

  datatype Search = Found(pos: nat) | Again | TooLarge

  /** What one turn of the loop of `http_read` gets: bytes done with, nothing yet, or a failure. */
  datatype Consumed = Bytes(n: nat) | Wait | Error

  lemma NoneAtAll(buf: seq<byte>, needle: seq<byte>)
    ensures NoneBefore(buf, needle, 0)
  {
  }

  lemma Whole(needle: seq<byte>, all: seq<byte>)
    ensures Between(needle, all, [], all)
  {
  }

  lemma Room(buf: seq<byte>, needle: seq<byte>, p: nat)
    requires MatchAt(buf, needle, p)
    ensures p + |needle| <= |buf|
  {
  }

  class Part {
    /** `multipart_full_boundary`: the delimiter, with its line break. */
    const needle: seq<byte>
    /** A file, or a form field. */
    const isFile: bool
    /** `MAX_POST_PARAM_LENGTH` */
    const maxLength: nat

    var buffer: seq<byte>
    var searchOffset: nat
    /** `MULTIPART_STATE_CONTENT` */
    var reading: bool
    var failed: bool
    /** The arguments of all `file_content` calls joined, or the argument of `post_param`. */
    var received: seq<byte>
    /** Everything read since the part's content began. */
    ghost var all: seq<byte>

    /** The search may start at searchOffset. */
    ghost predicate Resumable(buf: seq<byte>)
      reads this`searchOffset
    {
      && (searchOffset > 0 ==> searchOffset + |needle| <= |buf|)
      && NoneBefore(buf, needle, searchOffset)
    }

    /** The state is a function of the bytes read, not of the reads. */
    ghost predicate Valid()
      reads this
    {
      && |needle| > 2 && (failed ==> reading && !isFile) && (reading && !failed ==> Resumable(buffer))
      && (reading && !failed && isFile ==> searchOffset == 0 && Delivered(needle, all, received, buffer))
      && (reading && !failed && !isFile ==> received == [] && buffer == all && NoneBefore(all, needle, |all|))
      && (!reading ==> exists p :: Ended(needle, all, p, received, buffer))
    }

    constructor (needle: seq<byte>, isFile: bool, maxLength: nat)
      requires |needle| > 2
      ensures Valid() && reading && !failed && all == [] && received == []
      ensures this.needle == needle && this.isFile == isFile && this.maxLength == maxLength
    {
      this.needle, this.isFile, this.maxLength := needle, isFile, maxLength;
      buffer, searchOffset, reading, failed, received, all := [], 0, true, false, [], [];
    }

    /** `http_read_until_string`: the resumed search finds what a search from the start finds. */
    method ReadUntilString(buf: seq<byte>, limit: nat) returns (r: Search)
      requires |needle| > 0 && Resumable(buf)
      modifies this`searchOffset
      ensures r.Found? ==> FirstAt(buf, needle, r.pos) && searchOffset == 0
      ensures !r.Found? ==> NoneBefore(buf, needle, |buf|) && Resumable(buf)
      ensures !r.Found? ==> searchOffset == if |buf| > |needle| then |buf| - |needle| else 0
      ensures r.TooLarge? <==> limit > 0 && |buf| >= limit && NoneBefore(buf, needle, |buf|)
    {
      hide MatchAt;
      var offset := searchOffset;
      var rest := buf[offset..];
      var pos := ByteStr(rest, needle);
      FromOffset(buf, offset, pos);
      if pos == |buf| - offset {
        searchOffset := if |buf| > |needle| then |buf| - |needle| else 0;
        if limit > 0 && pos + offset >= limit { return TooLarge; }
        return Again;
      }
      searchOffset := 0;
      return Found(pos + offset);
    }

    /** `http_read_multipart_content` */
    method ReadContent(buf: seq<byte>) returns (r: Consumed)
      requires |needle| > 2 && reading && !failed && Resumable(buf)
      modifies this`searchOffset, this`received, this`reading
      ensures r.Error? ==> !isFile && reading
      ensures r.Wait? ==> reading && received == old(received) && Resumable(buf) && NoneBefore(buf, needle, |buf|)
      ensures r.Wait? && isFile ==> |buf| <= |needle| && searchOffset == 0
      ensures r.Bytes? && reading ==> isFile && |buf| > |needle| && r.n == |buf| - |needle| && searchOffset == 0
      ensures r.Bytes? && reading ==> received == old(received) + buf[..r.n] && NoneBefore(buf, needle, r.n + 1)
      ensures !reading ==> r.Bytes? && r.n >= 2 && r.n <= |buf| && FirstAt(buf, needle, r.n - 2) && searchOffset == 0
      ensures !reading ==> received == (if isFile then old(received) else []) + buf[..r.n - 2]
    {
      hide MatchAt;
      if !isFile {
        var found := ReadUntilString(buf, maxLength);
        match found {
          case TooLarge => return Error;
          case Again => return Wait;
          case Found(pos) =>
            Room(buf, needle, pos);
            received := buf[..pos];
            reading := false;
            return Bytes(pos + 2);
        }
      }
      var found := ReadUntilString(buf, 0);
      if found.Again? {
        var safePrefix := searchOffset;
        if safePrefix <= 0 { return Wait; }
        searchOffset := 0;
        received := received + buf[..safePrefix];
        return Bytes(safePrefix);
      } else {
        Room(buf, needle, found.pos);
        if found.pos > 0 { received := received + buf[..found.pos]; }
        reading := false;
        return Bytes(found.pos + 2);
      }
    }

    /** The loop of `http_read` while the part lasts: the offset up to which the buffer is done with. */
    method Consume() returns (offset: nat, ghost end: nat)
      requires |needle| > 2 && reading && !failed && Resumable(buffer)
      requires if isFile then searchOffset == 0 && Between(needle, all, received, buffer)
        else all == buffer && received == []
      modifies this`searchOffset, this`received, this`reading, this`failed
      ensures offset <= |buffer| && (failed ==> reading && !isFile)
      ensures reading && !failed ==> Resumable(buffer[offset..])
      ensures reading && !failed && isFile ==> searchOffset == 0 && Delivered(needle, all, received, buffer[offset..])
      ensures reading && !failed && !isFile ==> received == [] && offset == 0 && NoneBefore(all, needle, |all|)
      ensures !reading ==> Ended(needle, all, end, received, buffer[offset..])
    {
      hide MatchAt, Between, Ended, Delivered, NoneBefore;
      offset, end := 0, 0;
      assert buffer[0..] == buffer;
      while true
        invariant reading && !failed && offset <= |buffer| && Resumable(buffer[offset..])
        invariant isFile ==> searchOffset == 0 && Between(needle, all, received, buffer[offset..])
        invariant !isFile ==> offset == 0 && received == []
        decreases |buffer| - offset
      {
        ghost var rest, before := buffer[offset..], received;
        var r := ReadContent(buffer[offset..]);
        match r {
          case Error => failed := true; return;
          case Wait =>
            if isFile { NothingMore(needle, all, received, rest); }
            return;
          case Bytes(n) =>
            assert rest[n..] == buffer[offset + n..];
            offset := offset + n;
            if !reading {
              if !isFile { Whole(needle, all); }
              DelimiterFound(needle, all, if isFile then before else [], rest, n - 2);
              end := (if isFile then |before| else 0) + n - 2;
              return;
            }
            SafePrefix(needle, all, before, rest);
            NoneAtAll(buffer[offset..], needle);
        }
      }
    }

    /** `http_read` with these bytes: the state afterwards is that of a single read of all bytes so far. */
    method Read(chunk: seq<byte>)
      requires Valid()
      modifies this
      ensures Valid() && all == old(all) + chunk
    {
      assert all + [] == all;
      if |chunk| == 0 { return; }
      ghost var all0, buffer0 := all, buffer;
      all := all + chunk;
      if failed { return; }
      buffer := buffer + chunk;
      if !reading {
        ghost var p :| Ended(needle, all0, p, received, buffer0);
        EndStays(needle, all0, p, received, buffer0, chunk);
        assert Ended(needle, all, p, received, buffer);
        return;
      }
      ResumeStays(buffer0, chunk, needle, searchOffset);
      if isFile { BeginRead(needle, all0, chunk, received, buffer0); }
      var offset;
      ghost var end;
      offset, end := Consume();
      assert offset == 0 ==> buffer[offset..] == buffer;
      // array_chop_beginning
      buffer := buffer[offset..];
      assert !reading ==> Ended(needle, all, end, received, buffer);
    }

    lemma FromOffset(buf: seq<byte>, offset: nat, pos: nat)
      requires |needle| > 0 && offset <= |buf| && NoneBefore(buf, needle, offset)
      requires pos < |buf[offset..]| ==> FirstAt(buf[offset..], needle, pos)
      requires pos >= |buf[offset..]| ==> NoneBefore(buf[offset..], needle, |buf| - offset)
      ensures pos < |buf| - offset ==> FirstAt(buf, needle, pos + offset)
      ensures pos >= |buf| - offset ==> NoneBefore(buf, needle, |buf|)
    {
      hide MatchAt;
      var a, b := buf[..offset], buf[offset..];
      assert buf == a + b;
      forall i: nat ensures MatchAt(buf, needle, offset + i) <==> MatchAt(b, needle, i) {
        MatchInSuffix(a, b, needle, i);
      }
      forall i: nat | offset <= i < |buf| && MatchAt(buf, needle, i) ensures MatchAt(b, needle, i - offset) {
        MatchInSuffix(a, b, needle, i - offset);
      }
    }
  }

  /** Inside the loop: what is delivered and what is left make up everything, and no delimiter starts before what is
      left. */
  ghost predicate Between(needle: seq<byte>, all: seq<byte>, received: seq<byte>, rest: seq<byte>) {
    all == received + rest && NoneBefore(all, needle, |received|) && (|received| > 0 ==> |rest| >= |needle|)
  }

  lemma BeginRead(needle: seq<byte>, all: seq<byte>, chunk: seq<byte>, received: seq<byte>, buffer: seq<byte>)
    requires |needle| > 0 && Delivered(needle, all, received, buffer)
    ensures Between(needle, all + chunk, received, buffer + chunk)
  {
    SearchedStays(all, chunk, needle);
  }

  /** No match in the rest is no match in the whole. */
  lemma NoneFurther(received: seq<byte>, rest: seq<byte>, needle: seq<byte>, n: nat)
    requires NoneBefore(received + rest, needle, |received|) && NoneBefore(rest, needle, n)
    ensures NoneBefore(received + rest, needle, |received| + n)
  {
    hide MatchAt;
    forall i: nat | |received| <= i < |received| + n ensures !MatchAt(received + rest, needle, i) {
      MatchInSuffix(received, rest, needle, i - |received|);
    }
  }

  lemma SafePrefix(needle: seq<byte>, all: seq<byte>, received: seq<byte>, rest: seq<byte>)
    requires Between(needle, all, received, rest) && |rest| > |needle|
    requires NoneBefore(rest, needle, |rest| - |needle| + 1)
    ensures var n := |rest| - |needle|; Between(needle, all, received + rest[..n], rest[n..])
  {
    NoneFurther(received, rest, needle, |rest| - |needle| + 1);
    assert all == received + rest[..|rest| - |needle|] + rest[|rest| - |needle|..];
  }

  lemma NothingMore(needle: seq<byte>, all: seq<byte>, received: seq<byte>, rest: seq<byte>)
    requires Between(needle, all, received, rest) && |rest| <= |needle| && NoneBefore(rest, needle, |rest|)
    ensures Delivered(needle, all, received, rest)
  {
    NoneFurther(received, rest, needle, |rest|);
  }

  lemma DelimiterFound(needle: seq<byte>, all: seq<byte>, received: seq<byte>, rest: seq<byte>, p: nat)
    requires Between(needle, all, received, rest) && FirstAt(rest, needle, p) && |needle| >= 2
    ensures p + 2 <= |rest| && Ended(needle, all, |received| + p, received + rest[..p], rest[p + 2..])
  {
    NoneFurther(received, rest, needle, p);
    MatchInSuffix(received, rest, needle, p);
  }

  lemma EndStays(needle: seq<byte>, all: seq<byte>, p: nat, received: seq<byte>, buffer: seq<byte>, chunk: seq<byte>)
    requires Ended(needle, all, p, received, buffer)
    ensures Ended(needle, all + chunk, p, received, buffer + chunk)
  {
    FirstStays(all, chunk, needle, p);
  }

  /** A file still being read: all but the last bytes, as many as the delimiter has, are delivered. */
  ghost predicate Delivered(needle: seq<byte>, all: seq<byte>, received: seq<byte>, buffer: seq<byte>) {
    && NoneBefore(all, needle, |all|)
    && all == received + buffer
    && |received| == if |all| > |needle| then |all| - |needle| else 0
  }

  /** The delimiter has been found: what comes before it is delivered, and its line break is passed. */
  ghost predicate Ended(needle: seq<byte>, all: seq<byte>, p: nat, received: seq<byte>, buffer: seq<byte>) {
    FirstAt(all, needle, p) && p + 2 <= |all| && received == all[..p] && buffer == all[p + 2..]
  }

  /** Two parts that have read the same bytes, however cut, have delivered the same and are in the same state. */
  lemma ChunksDoNotMatter(a: Part, b: Part)
    requires a.Valid() && b.Valid() && !a.failed && !b.failed
    requires a.needle == b.needle && a.isFile == b.isFile && a.all == b.all
    ensures a.reading == b.reading && a.received == b.received && a.buffer == b.buffer
  {
    hide MatchAt;
    if !a.reading && !b.reading {
      var p :| Ended(a.needle, a.all, p, a.received, a.buffer);
      var q :| Ended(b.needle, b.all, q, b.received, b.buffer);
      OneFirst(a.all, a.needle, p, q);
    } else if a.reading && b.reading {
      if a.isFile {
        assert a.received == a.all[..|a.received|] && b.received == b.all[..|b.received|];
        assert a.buffer == a.all[|a.received|..] && b.buffer == b.all[|b.received|..];
      }
    } else {
      assert false;
    }
  }

  function Concat(chunks: seq<seq<byte>>): seq<byte> {
    if |chunks| == 0 then [] else Concat(chunks[..|chunks| - 1]) + chunks[|chunks| - 1]
  }

  /** All reads of one part. */
  method ReadAll(part: Part, chunks: seq<seq<byte>>)
    requires part.Valid() && part.all == []
    modifies part
    ensures part.Valid() && part.all == Concat(chunks)
  {
    var i := 0;
    while i < |chunks|
      invariant i <= |chunks| && part.Valid() && part.all == Concat(chunks[..i])
    {
      part.Read(chunks[i]);
      i := i + 1;
      assert chunks[..i][..i - 1] == chunks[..i - 1];
    }
    assert chunks[..i] == chunks;
  }

  /** A file part delivers exactly the bytes before the first delimiter (section 5.1.1 of RFC 2046). */
  method ReceiveFile(needle: seq<byte>, chunks: seq<seq<byte>>)
    returns (content: seq<byte>, rest: seq<byte>, ended: bool)
    requires |needle| > 2
    ensures ended <==> exists p: nat :: FirstAt(Concat(chunks), needle, p)
    ensures forall p: nat :: FirstAt(Concat(chunks), needle, p) ==>
      p + 2 <= |Concat(chunks)| && content == Concat(chunks)[..p] && rest == Concat(chunks)[p + 2..]
    ensures !ended ==> NoneBefore(Concat(chunks), needle, |Concat(chunks)|) && content + rest == Concat(chunks)
    ensures !ended ==> |rest| == if |Concat(chunks)| > |needle| then |needle| else |Concat(chunks)|
  {
    hide MatchAt;
    var part := new Part(needle, true, 0);
    ReadAll(part, chunks);
    content, rest, ended := part.received, part.buffer, !part.reading;
    forall p: nat | FirstAt(Concat(chunks), needle, p)
      ensures ended && p + 2 <= |Concat(chunks)| && content == Concat(chunks)[..p] && rest == Concat(chunks)[p + 2..]
    {
      Room(Concat(chunks), needle, p);
      if ended {
        var q :| Ended(needle, part.all, q, part.received, part.buffer);
        OneFirst(Concat(chunks), needle, p, q);
      }
    }
  }

  /** A form field over any split into reads: its value is handed out whole, once its delimiter is there. */
  method ReceiveField(needle: seq<byte>, maxLength: nat, chunks: seq<seq<byte>>)
    returns (value: seq<byte>, rest: seq<byte>, ended: bool, failed: bool)
    requires |needle| > 2
    ensures !failed ==> (ended <==> exists p: nat :: FirstAt(Concat(chunks), needle, p))
    ensures !failed ==> forall p: nat :: FirstAt(Concat(chunks), needle, p) ==>
      p + 2 <= |Concat(chunks)| && value == Concat(chunks)[..p] && rest == Concat(chunks)[p + 2..]
    ensures !failed && !ended ==> value == [] && rest == Concat(chunks)
    ensures failed ==> !ended
  {
    hide MatchAt;
    var part := new Part(needle, false, maxLength);
    ReadAll(part, chunks);
    value, rest, ended, failed := part.received, part.buffer, !part.reading, part.failed;
    if failed { return; }
    forall p: nat | FirstAt(Concat(chunks), needle, p)
      ensures ended && p + 2 <= |Concat(chunks)| && value == Concat(chunks)[..p] && rest == Concat(chunks)[p + 2..]
    {
      Room(Concat(chunks), needle, p);
      if ended {
        var q :| Ended(needle, part.all, q, part.received, part.buffer);
        OneFirst(Concat(chunks), needle, p, q);
      }
    }
  }
}
