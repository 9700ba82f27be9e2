/**
 Copying a file descriptor with a size limit and with holes (src/lib/copyfd.c).
 What the operating system decides is a parameter: how the reads split the source,
 which seeks and writes fail, and where a read error occurs.
 */
module CopyFd {
  import opened Basics

  const BUFFER_SIZE: nat := 4 * 1024

  /** One pass of the loop: what read returned, whether a seek would succeed, and how
      many bytes a write would accept. The end of the list of rounds is end of file. */
  datatype Round = Data(bytes: seq<Byte>, seekOk: bool, writable: nat) | ReadError

  /** Reads return at least one byte and at most a buffer. */
  predicate Readable(rounds: seq<Round>) {
    forall i | 0 <= i < |rounds| && rounds[i].Data? :: 0 < |rounds[i].bytes| <= BUFFER_SIZE
  }

  /** All the bytes the reads deliver from round i on. */
  function Source(rounds: seq<Round>, i: nat := 0): seq<Byte>
    requires i <= |rounds|
    decreases |rounds| - i
  {
    if i == |rounds| || rounds[i].ReadError? then [] else rounds[i].bytes + Source(rounds, i + 1)
  }

  predicate AllZero(s: seq<Byte>) { forall i | 0 <= i < |s| :: s[i] == 0 }

  /** write(2) at a position: a gap before it reads as zeros. */
  function PutAt(content: seq<Byte>, pos: nat, x: seq<Byte>): seq<Byte> {
    if x == [] then content
    else if pos > |content| then content + Repeat(0, pos - |content|) + x
    else content[..pos] + x + if pos + |x| < |content| then content[pos + |x|..] else []
  }

  /** How full_fd_action ends. */
  datatype End = Failed | EndOfFile | LimitReached

  /** The local variables, and the destination file with its position. */
  datatype State = State(total: nat, size: nat, sparse: bool, lastWasSeek: bool, content: seq<Byte>, pos: nat)

  /** What one round writes or seeks over: never more than is still wanted. */
  function Chunk(rd: seq<Byte>, s: State): seq<Byte> {
    if |rd| > s.size then rd[..s.size] else rd
  }

  predicate Seeks(round: Round, s: State)
    requires round.Data?
  {
    s.sparse && AllZero(Chunk(round.bytes, s)) && round.seekOk
  }

  /** The state after a round that neither failed nor hit the limit. */
  function Next(round: Round, s: State, toEof: bool): State
    requires round.Data?
  {
    var chunk := Chunk(round.bytes, s);
    var s1 := s.(total := s.total + |round.bytes|, pos := s.pos + |chunk|,
                 size := if toEof || |chunk| > s.size then s.size else s.size - |chunk|);
    if Seeks(round, s) then s1.(lastWasSeek := true)
    else s1.(sparse := s.sparse && !AllZero(chunk), lastWasSeek := false, content := PutAt(s.content, s.pos, chunk))
  }

  /** The loop of full_fd_action from round i on, as a function. */
  function Run(rounds: seq<Round>, i: nat, s: State, toEof: bool, fixupOk: bool): (State, End)
    requires i <= |rounds|
    decreases |rounds| - i
  {
    if i == |rounds| then
      if !s.lastWasSeek then (s, EndOfFile)
      else if fixupOk && s.pos > 0 then (s.(content := PutAt(s.content, s.pos - 1, [0])), EndOfFile)
      else (s, Failed)
    else if rounds[i].ReadError? then (s, Failed)
    else
      var chunk := Chunk(rounds[i].bytes, s);
      if chunk == [] then (s.(total := s.total + |rounds[i].bytes|), LimitReached)
      else if !Seeks(rounds[i], s) && rounds[i].writable < |chunk| then
        (s.(content := PutAt(s.content, s.pos, chunk[..rounds[i].writable])), Failed)
      else Run(rounds, i + 1, Next(rounds[i], s, toEof), toEof, fixupOk)
  }

  function Start(content: seq<Byte>, size: nat, sparse: bool): State {
    State(0, if size == 0 then BUFFER_SIZE else size, sparse, false, content, |content|)
  }

  // ----- the loop itself -----

  /** The destination: a file open for writing, at its end. */
  class File {
    var content: seq<Byte>
    var pos: nat

    constructor (content: seq<Byte>)
      ensures this.content == content && pos == |content|
    {
      this.content := content;
      pos := |content|;
    }

    /** full_write: returns how many bytes the system accepted. */
    method Write(x: seq<Byte>, writable: nat) returns (wr: nat)
      modifies this
      ensures wr == if writable < |x| then writable else |x|
      ensures content == PutAt(old(content), old(pos), x[..wr]) && pos == old(pos) + wr
    {
      wr := if writable < |x| then writable else |x|;
      content := PutAt(content, pos, x[..wr]);
      pos := pos + wr;
    }
  }

  /** The backward scan for a byte to write. */
  method IsHole(buffer: seq<Byte>) returns (hole: bool)
    ensures hole <==> AllZero(buffer)
  {
    var cnt: int := |buffer|;
    hole := true;
    while cnt > 0
      invariant 0 <= cnt <= |buffer| && forall i | cnt <= i < |buffer| :: buffer[i] == 0
    {
      cnt := cnt - 1;
      if buffer[cnt] != 0 {
        return false;
      }
    }
  }

  /** Seeks over a chunk of zeros if it may, else writes the chunk. */
  method Transfer(dst: File, chunk: seq<Byte>, round: Round, sparse: bool)
    returns (sparse': bool, lastWasSeek: bool, ok: bool)
    requires round.Data?
    modifies dst
    ensures lastWasSeek == (sparse && AllZero(chunk) && round.seekOk)
    ensures ok <==> lastWasSeek || round.writable >= |chunk|
    ensures sparse' == (sparse && (lastWasSeek || !AllZero(chunk)))
    ensures ok ==> dst.pos == old(dst.pos) + |chunk|
    ensures dst.content == if lastWasSeek then old(dst.content)
                           else PutAt(old(dst.content), old(dst.pos), if ok then chunk else chunk[..round.writable])
  {
    sparse' := sparse;
    if sparse {
      var hole := IsHole(chunk);
      if hole {
        if round.seekOk {
          dst.pos := dst.pos + |chunk|;
          return true, true, true;
        }
        sparse' := false;
      }
    }
    var wr := dst.Write(chunk, round.writable);
    assert chunk[..|chunk|] == chunk;
    lastWasSeek, ok := false, wr == |chunk|;
  }

  /** At end of file: a final hole is closed by a zero byte written at its end. */
  method FinishFile(dst: File, last_was_seek: bool, fixupOk: bool) returns (ok: bool)
    modifies dst
    ensures ok <==> !last_was_seek || (fixupOk && old(dst.pos) > 0)
    ensures dst.content == if last_was_seek && ok then PutAt(old(dst.content), old(dst.pos) - 1, [0]) else old(dst.content)
  {
    if last_was_seek {
      if dst.pos == 0 || !fixupOk {
        return false;
      }
      dst.pos := dst.pos - 1;
      assert [0][..1] == [0];
      var _ := dst.Write([0], 1);
    }
    ok := true;
  }

  /** A round of a copy without a destination: nothing is written, so nothing fails. */
  function SeenRound(round: Round, written: bool): Round {
    if written || round.ReadError? then round else Data(round.bytes, false, |round.bytes|)
  }

  function Seen(rounds: seq<Round>, written: bool): (r: seq<Round>)
    ensures |r| == |rounds| && forall i | 0 <= i < |r| :: r[i] == SeenRound(rounds[i], written)
    ensures written ==> r == rounds
  {
    seq(|rounds|, i requires 0 <= i < |rounds| => SeenRound(rounds[i], written))
  }

  /** The destination, if there is one, and the flags are those of s. */
  ghost predicate Tracks(s: State, dst: File?, sparse: bool, lastWasSeek: bool)
    reads dst
  {
    && s.lastWasSeek == lastWasSeek
    && if dst == null then !s.sparse && !lastWasSeek
       else s.sparse == sparse && s.content == dst.content && s.pos == dst.pos
  }

  function Begin(dst: File?, limit: nat, sparse: bool): State
    reads dst
  {
    if dst == null then Start([], limit, false) else Start(dst.content, limit, sparse)
  }

  /** The return value r and the destination show how the copy ended. */
  ghost predicate Reports(r: int, dst: File?, outcome: (State, End))
    reads dst
  {
    r == (if outcome.1 == Failed then -1 else outcome.0.total) && (dst != null ==> dst.content == outcome.0.content)
  }

  /** full_fd_action. A source below 0 fails at once; with dst_fd -1, null here, the bytes
      are only counted. */
  method FullFdAction(srcFd: int, rounds: seq<Round>, dst: File?, limit: nat, sparse: bool, fixupOk: bool)
    returns (r: int)
    requires dst != null ==> dst.pos == |dst.content|
    modifies dst
    ensures srcFd < 0 ==> r == -1 && (dst != null ==> dst.content == old(dst.content))
    ensures srcFd >= 0 ==>
      Reports(r, dst, Run(Seen(rounds, dst != null), 0, old(Begin(dst, limit, sparse)), limit == 0, fixupOk))
  {
    if srcFd < 0 {
      return -1;
    }
    var size: nat, total: nat := limit, 0;
    var flags_sparse, last_was_seek := sparse, false;
    var to_eof := limit == 0;
    if to_eof {
      size := BUFFER_SIZE;
    }
    var i := 0;
    ghost var s := Begin(dst, limit, sparse);
    ghost var result := Run(Seen(rounds, dst != null), 0, s, to_eof, fixupOk);
    var done := false;
    r := -1;
    while !done
      invariant 0 <= i <= |rounds|
      invariant !done ==> s.total == total && s.size == size && Tracks(s, dst, flags_sparse, last_was_seek)
      invariant if done then Reports(r, dst, result) else Run(Seen(rounds, dst != null), i, s, to_eof, fixupOk) == result
      decreases |rounds| - i, !done
    {
      if i == |rounds| {
        r := AtEof(rounds, dst, total, last_was_seek, fixupOk, s, to_eof);
        done := true;
      } else {
        done, r, total, size, flags_sparse, last_was_seek, s :=
          OneRound(rounds, i, dst, total, size, flags_sparse, last_was_seek, to_eof, fixupOk, s);
        i := i + 1;
      }
    }
  }

  /** The branch for the end of the file. */
  method AtEof(rounds: seq<Round>, dst: File?, total: nat, last_was_seek: bool, fixupOk: bool, ghost s: State, ghost toEof: bool)
    returns (r: int)
    requires s.total == total && s.lastWasSeek == last_was_seek && (dst == null ==> !last_was_seek)
    requires dst != null ==> s.content == dst.content && s.pos == dst.pos
    modifies dst
    ensures Reports(r, dst, Run(Seen(rounds, dst != null), |rounds|, s, toEof, fixupOk))
  {
    var ok := true;
    if dst != null {
      ok := FinishFile(dst, last_was_seek, fixupOk);
    }
    r := if ok then total else -1;
  }

  /** One pass of the loop over what has been read. */
  method OneRound(rounds: seq<Round>, i: nat, dst: File?, total: nat, size: nat, sparse: bool, last: bool,
                  toEof: bool, ghost fixupOk: bool, ghost s: State)
    returns (done: bool, r: int, total': nat, size': nat, sparse': bool, last': bool, ghost s': State)
    requires i < |rounds| && s.total == total && s.size == size && Tracks(s, dst, sparse, last)
    modifies dst
    ensures var before := Run(Seen(rounds, dst != null), i, s, toEof, fixupOk);
      if done then Reports(r, dst, before)
      else
        && before == Run(Seen(rounds, dst != null), i + 1, s', toEof, fixupOk)
        && s'.total == total' && s'.size == size' && Tracks(s', dst, sparse', last')
  {
    done, r, total', size', sparse', last', s' := true, -1, total, size, sparse, last, s;
    if rounds[i].ReadError? {
      return;
    }
    var rd := |rounds[i].bytes|;
    total' := total + rd;
    var towrite := if rd > size then size else rd;
    assert |Chunk(rounds[i].bytes, s)| == towrite;
    if towrite == 0 {
      r := total';
      return;
    }
    var ok;
    sparse', last', ok := CopyRound(dst, rounds[i], towrite, s, toEof, sparse, last);
    if ok {
      done := false;
      if !toEof {
        size' := size - towrite;
      }
      s' := Next(SeenRound(rounds[i], dst != null), s, toEof);
    }
  }

  /** Transfers a chunk, if there is somewhere to transfer it to. */
  method CopyRound(dst: File?, round: Round, towrite: nat, ghost s: State, ghost toEof: bool, sparse: bool, last: bool)
    returns (sparse': bool, last': bool, ok: bool)
    requires round.Data? && 0 < towrite == |Chunk(round.bytes, s)| && Tracks(s, dst, sparse, last)
    modifies dst
    ensures var seen := SeenRound(round, dst != null); ok <==> Seeks(seen, s) || seen.writable >= towrite
    ensures ok ==> Tracks(Next(SeenRound(round, dst != null), s, toEof), dst, sparse', last')
    ensures !ok ==> dst != null && dst.content == PutAt(s.content, s.pos, Chunk(round.bytes, s)[..round.writable])
  {
    if dst == null {
      return sparse, last, true;
    }
    sparse', last', ok := CopyChunk(dst, round, towrite, s, toEof, sparse);
  }

  method CopyChunk(dst: File, round: Round, towrite: nat, ghost s: State, ghost toEof: bool, sparse: bool)
    returns (sparse': bool, lastWasSeek: bool, ok: bool)
    requires round.Data? && 0 < towrite == |Chunk(round.bytes, s)|
    requires s.sparse == sparse && dst.content == s.content && dst.pos == s.pos
    modifies dst
    ensures ok <==> Seeks(round, s) || round.writable >= towrite
    ensures ok ==>
      && var size := if toEof then s.size else s.size - towrite;
      && Next(round, s, toEof) == State(s.total + |round.bytes|, size, sparse', lastWasSeek, dst.content, dst.pos)
    ensures !ok ==> dst.content == PutAt(s.content, s.pos, Chunk(round.bytes, s)[..round.writable])
  {
    var chunk := round.bytes[..towrite];
    assert chunk == Chunk(round.bytes, s);
    sparse', lastWasSeek, ok := Transfer(dst, chunk, round, sparse);
  }

  /** copyfd_size: at most `limit` bytes are reported. */
  method CopyFdSize(rounds: seq<Round>, dst: File, limit: nat, sparse: bool, fixupOk: bool) returns (r: int)
    requires Readable(rounds) && dst.pos == |dst.content|
    modifies dst
    ensures limit == 0 ==> r == 0 && dst.content == old(dst.content)
    ensures limit > 0 && r >= 0 ==> r == |Wanted(Source(rounds), limit)|
    ensures limit > 0 && r >= 0 ==>
      (dst.content == old(dst.content) + Wanted(Source(rounds), limit) <==> !LosesHole(rounds, limit, sparse))
    ensures limit > 0 ==> (r >= 0 <==> Succeeds(rounds, limit, sparse, fixupOk))
    ensures r < 0 ==> old(dst.content) <= dst.content <= old(dst.content) + Wanted(Source(rounds), limit)
  {
    if limit == 0 {
      return 0;
    }
    RunAppends(rounds, 0, Start(dst.content, limit, sparse), false, fixupOk);
    CopySucceedsIff(rounds, dst.content, limit, sparse, fixupOk);
    CopyIsExact(rounds, dst.content, limit, sparse, fixupOk);
    HoleLostIff(rounds, dst.content, limit, sparse, fixupOk);
    var n := FullFdAction(0, rounds, dst, limit, sparse, fixupOk);
    r := if n > limit then limit else n;
  }

  /** copyfd_eof */
  method CopyFdEof(rounds: seq<Round>, dst: File, sparse: bool, fixupOk: bool) returns (r: int)
    requires Readable(rounds) && dst.pos == |dst.content|
    modifies dst
    ensures r >= 0 <==> Succeeds(rounds, 0, sparse, fixupOk)
    ensures r >= 0 ==> r == |Source(rounds)| && dst.content == old(dst.content) + Source(rounds)
    ensures r < 0 ==> old(dst.content) <= dst.content <= old(dst.content) + Source(rounds)
  {
    RunAppends(rounds, 0, Start(dst.content, 0, sparse), true, fixupOk);
    CopySucceedsIff(rounds, dst.content, 0, sparse, fixupOk);
    CopyIsExact(rounds, dst.content, 0, sparse, fixupOk);
    r := FullFdAction(0, rounds, dst, 0, sparse, fixupOk);
  }

  // ----- what a copy leaves behind -----

  /** The part of the source a copy is asked for; a limit of 0 means all of it. */
  function Wanted(source: seq<Byte>, limit: nat): seq<Byte> {
    if limit == 0 || |source| <= limit then source else source[..limit]
  }

  /** The file as a reader will see it once it has been extended to its position. */
  function Extended(content: seq<Byte>, pos: nat): seq<Byte> {
    if pos > |content| then content + Repeat(0, pos - |content|) else content
  }

  /** The destination stands for `image`: what a final hole leaves out is zeros. */
  predicate StandsFor(s: State, image: seq<Byte>) {
    && |s.content| <= s.pos == |image|
    && Extended(s.content, s.pos) == image
    && (s.lastWasSeek <==> |s.content| < s.pos)
  }

  lemma SeekKeeps(s: State, image: seq<Byte>, chunk: seq<Byte>)
    requires StandsFor(s, image) && AllZero(chunk) && chunk != []
    ensures StandsFor(s.(pos := s.pos + |chunk|, lastWasSeek := true), image + chunk)
  {
    var s' := s.(pos := s.pos + |chunk|, lastWasSeek := true);
    assert chunk == Repeat(0, |chunk|);
    assert Repeat(0, s'.pos - |s.content|) == Repeat(0, s.pos - |s.content|) + chunk;
    assert Extended(s'.content, s'.pos) == Extended(s.content, s.pos) + chunk;
  }

  lemma WriteKeeps(s: State, image: seq<Byte>, chunk: seq<Byte>)
    requires StandsFor(s, image) && chunk != []
    ensures PutAt(s.content, s.pos, chunk) == image + chunk
    ensures StandsFor(s.(pos := s.pos + |chunk|, lastWasSeek := false, content := PutAt(s.content, s.pos, chunk)), image + chunk)
  {
    if s.pos == |s.content| {
      assert s.content[..s.pos] == s.content;
    }
  }

  /** A write cut short leaves a part of what it should have written. */
  lemma ShortWriteKeeps(s: State, image: seq<Byte>, chunk: seq<Byte>, n: nat)
    requires StandsFor(s, image) && n <= |chunk|
    ensures PutAt(s.content, s.pos, chunk[..n]) <= image + chunk
  {
    HoleIsShort(s, image);
    if n > 0 {
      WriteKeeps(s, image, chunk[..n]);
      assert image + chunk == (image + chunk[..n]) + chunk[n..];
    }
  }

  lemma HoleIsShort(s: State, image: seq<Byte>)
    requires StandsFor(s, image)
    ensures s.content <= image
  {
    assert Extended(s.content, s.pos)[..|s.content|] == s.content;
  }

  /** Writing one zero byte over the last byte of a final hole makes the file complete. */
  lemma FixupCompletes(s: State, image: seq<Byte>)
    requires StandsFor(s, image) && s.lastWasSeek
    ensures s.pos > 0 && PutAt(s.content, s.pos - 1, [0]) == image
  {
    var n := s.pos - |s.content|;
    assert Repeat(0, n) == Repeat(0, n - 1) + [0];
    if n == 1 {
      assert s.content[..s.pos - 1] == s.content;
    }
  }

  /** The outcome of the loop from any point of the copy, `done` being copied already. */
  ghost predicate Outcome(s': State, end: End, source: seq<Byte>, s: State, toEof: bool, image: seq<Byte>) {
    var want := image + if toEof || |source| <= s.size then source else source[..s.size];
    match end
    case Failed => s'.content <= want
    case EndOfFile => s'.content == want && s'.total == s.total + |source|
    case LimitReached =>
      !toEof && |source| > s.size && s'.total > s.total + s.size && StandsFor(s', want)
  }

  /** From the outcome of the rest to the outcome from the round before it. */
  lemma OutcomeShifts(rd: seq<Byte>, rest: seq<Byte>, s: State, toEof: bool, image: seq<Byte>, next: State, s': State, end: End)
    requires rd != [] && s.size > 0 && (toEof ==> |rd| <= s.size)
    requires next.total == s.total + |rd|
    requires var towrite := if |rd| > s.size then s.size else |rd|;
      next.size == (if toEof then s.size else s.size - towrite) && Outcome(s', end, rest, next, toEof, image + Chunk(rd, s))
    ensures Outcome(s', end, rd + rest, s, toEof, image)
  {
    var source := rd + rest;
    if toEof || |rd| <= s.size {
      assert rd[..|rd|] == rd;
      assert image + rd + rest == image + source;
      if !toEof && |source| > s.size {
        assert image + rd + rest[..s.size - |rd|] == image + source[..s.size];
      }
    } else {
      assert source[..s.size] == rd[..s.size];
      assert image + rd[..s.size] + rest[..0] == image + source[..s.size];
      if rest == [] {
        assert image + rd[..s.size] + rest == image + source[..s.size];
      }
    }
  }

  lemma NextStands(round: Round, s: State, toEof: bool, image: seq<Byte>)
    requires round.Data? && StandsFor(s, image) && Chunk(round.bytes, s) != []
    ensures StandsFor(Next(round, s, toEof), image + Chunk(round.bytes, s))
    ensures !s.sparse && !s.lastWasSeek ==> !Next(round, s, toEof).sparse && !Next(round, s, toEof).lastWasSeek
  {
    var chunk := Chunk(round.bytes, s);
    if Seeks(round, s) {
      SeekKeeps(s, image, chunk);
    } else {
      WriteKeeps(s, image, chunk);
    }
  }

  lemma {:induction false} RunOutcome(rounds: seq<Round>, i: nat, s: State, toEof: bool, fixupOk: bool, image: seq<Byte>)
    requires i <= |rounds| && Readable(rounds) && StandsFor(s, image) && (toEof ==> s.size == BUFFER_SIZE)
    ensures var (s', end) := Run(rounds, i, s, toEof, fixupOk);
      Outcome(s', end, Source(rounds, i), s, toEof, image) && (!s.sparse && !s.lastWasSeek ==> !s'.lastWasSeek)
    decreases |rounds| - i
  {
    if i == |rounds| || rounds[i].ReadError? || Chunk(rounds[i].bytes, s) == [] {
      StopOutcome(rounds, i, s, toEof, fixupOk, image);
    } else if Seeks(rounds[i], s) || rounds[i].writable >= |Chunk(rounds[i].bytes, s)| {
      var rd := rounds[i].bytes;
      var next := Next(rounds[i], s, toEof);
      NextStands(rounds[i], s, toEof, image);
      RunOutcome(rounds, i + 1, next, toEof, fixupOk, image + Chunk(rd, s));
      var r := Run(rounds, i + 1, next, toEof, fixupOk);
      OutcomeShifts(rd, Source(rounds, i + 1), s, toEof, image, next, r.0, r.1);
    } else {
      ShortWriteOutcome(rounds, i, s, toEof, image);
    }
  }

  lemma StopOutcome(rounds: seq<Round>, i: nat, s: State, toEof: bool, fixupOk: bool, image: seq<Byte>)
    requires i <= |rounds| && Readable(rounds) && StandsFor(s, image) && (toEof ==> s.size == BUFFER_SIZE)
    requires i == |rounds| || rounds[i].ReadError? || Chunk(rounds[i].bytes, s) == []
    ensures var (s', end) := Run(rounds, i, s, toEof, fixupOk);
      Outcome(s', end, Source(rounds, i), s, toEof, image) && (!s.sparse && !s.lastWasSeek ==> !s'.lastWasSeek)
  {
    HoleIsShort(s, image);
    assert image + [] == image;
    if i == |rounds| && s.lastWasSeek {
      FixupCompletes(s, image);
    } else if i < |rounds| && rounds[i].Data? {
      assert image + Source(rounds, i)[..0] == image;
    }
  }

  lemma ShortWriteOutcome(rounds: seq<Round>, i: nat, s: State, toEof: bool, image: seq<Byte>)
    requires i < |rounds| && Readable(rounds) && rounds[i].Data? && StandsFor(s, image) && (toEof ==> s.size == BUFFER_SIZE)
    requires rounds[i].writable < |Chunk(rounds[i].bytes, s)|
    ensures var content := PutAt(s.content, s.pos, Chunk(rounds[i].bytes, s)[..rounds[i].writable]);
      Outcome(s.(content := content), Failed, Source(rounds, i), s, toEof, image)
  {
    var chunk, source := Chunk(rounds[i].bytes, s), Source(rounds, i);
    var want := if toEof || |source| <= s.size then source else source[..s.size];
    ShortWriteKeeps(s, image, chunk, rounds[i].writable);
    assert chunk <= want;
    assert image + want == (image + chunk) + want[|chunk|..];
  }

  /** For every way the reads split the source and whichever seeks fail: a copy without
      error reads the source up to its end or past the limit, reports more than the limit
      exactly when the source is longer, and leaves the wanted bytes - except that a copy
      that stops at the limit on a seek has lost the zeros of its last hole. A failed copy
      leaves a part of them. */
  lemma CopyIsExact(rounds: seq<Round>, content: seq<Byte>, limit: nat, sparse: bool, fixupOk: bool)
    requires Readable(rounds)
    ensures var (s, end) := Run(rounds, 0, Start(content, limit, sparse), limit == 0, fixupOk);
      var source := Source(rounds);
      && (end == Failed ==> s.content <= content + Wanted(source, limit))
      && (end != Failed ==>
        && (if limit == 0 || |source| <= limit then s.total == |source| else s.total > limit)
        && (s.content == content + Wanted(source, limit) <==> end == EndOfFile || !s.lastWasSeek)
        && (end == LimitReached ==> limit > 0 && |source| > limit)
        && (!sparse ==> s.content == content + Wanted(source, limit)))
  {
    RunOutcome(rounds, 0, Start(content, limit, sparse), limit == 0, fixupOk, content);
  }

  lemma {:induction false} SeenSource(rounds: seq<Round>, i: nat)
    requires i <= |rounds|
    ensures Source(Seen(rounds, false), i) == Source(rounds, i)
    decreases |rounds| - i
  {
    if i < |rounds| && rounds[i].Data? {
      SeenSource(rounds, i + 1);
    }
  }

  lemma {:induction false} CountingFailsOnRead(rounds: seq<Round>, i: nat, s: State, toEof: bool, fixupOk: bool)
    requires i <= |rounds| && !s.sparse && !s.lastWasSeek && forall k | i <= k < |rounds| :: rounds[k].Data?
    ensures Run(Seen(rounds, false), i, s, toEof, fixupOk).1 != Failed
    decreases |rounds| - i
  {
    if i < |rounds| {
      CountingFailsOnRead(rounds, i + 1, Next(Seen(rounds, false)[i], s, toEof), toEof, fixupOk);
    }
  }

  /** A copy without a destination counts the source, and fails only on a read error. */
  lemma CountIsExact(rounds: seq<Round>, limit: nat, fixupOk: bool)
    requires Readable(rounds)
    ensures var (s, end) := Run(Seen(rounds, false), 0, Start([], limit, false), limit == 0, fixupOk);
      && ((forall k | 0 <= k < |rounds| :: rounds[k].Data?) ==> end != Failed)
      && (end != Failed ==>
            if limit == 0 || |Source(rounds)| <= limit then s.total == |Source(rounds)| else s.total > limit)
  {
    SeenSource(rounds, 0);
    CopyIsExact(Seen(rounds, false), [], limit, false, fixupOk);
    if forall k | 0 <= k < |rounds| :: rounds[k].Data? {
      CountingFailsOnRead(rounds, 0, Start([], limit, false), limit == 0, fixupOk);
    }
  }

  // ----- when a hole is lost -----

  /** How many bytes the reads before round k deliver. */
  function Offset(rounds: seq<Round>, k: nat): nat
    requires k <= |rounds|
  {
    if k == 0 then 0
    else Offset(rounds, k - 1) + if rounds[k - 1].Data? then |rounds[k - 1].bytes| else 0
  }

  /** The bytes of round k below the limit. */
  function Cut(rounds: seq<Round>, k: nat, limit: nat): seq<Byte>
    requires k < |rounds| && rounds[k].Data?
  {
    if limit <= Offset(rounds, k) then []
    else if |rounds[k].bytes| > limit - Offset(rounds, k) then rounds[k].bytes[..limit - Offset(rounds, k)]
    else rounds[k].bytes
  }

  predicate IsHoleRound(rounds: seq<Round>, k: nat, limit: nat)
    requires k < |rounds|
  {
    rounds[k].Data? && Offset(rounds, k) < limit && AllZero(Cut(rounds, k, limit))
  }

  /** No hole before round k was one that could not be seeked over. */
  predicate StillSparse(rounds: seq<Round>, k: nat, limit: nat, sparse: bool)
    requires k <= |rounds|
  {
    sparse && forall j | 0 <= j < k && IsHoleRound(rounds, j, limit) :: rounds[j].seekOk
  }

  /** Round k reaches the limit, more data follows, and what is wanted of it is a hole
      that can be seeked over, like every hole before it. */
  predicate EndsOnHole(rounds: seq<Round>, k: nat, limit: nat, sparse: bool)
    requires k < |rounds|
  {
    && k + 1 < |rounds| && Offset(rounds, k) < limit <= Offset(rounds, k + 1)
    && IsHoleRound(rounds, k, limit) && StillSparse(rounds, k + 1, limit, sparse)
  }

  predicate LosesHole(rounds: seq<Round>, limit: nat, sparse: bool) {
    exists k | 0 <= k < |rounds| :: EndsOnHole(rounds, k, limit, sparse)
  }

  lemma {:induction false} OffsetGrows(rounds: seq<Round>, j: nat, k: nat)
    requires j <= k <= |rounds|
    ensures Offset(rounds, j) <= Offset(rounds, k)
  {
    if j < k {
      OffsetGrows(rounds, j, k - 1);
    }
  }

  /** A number of bytes that no copy without a limit reaches, or the limit. */
  function Bound(rounds: seq<Round>, limit: nat): nat {
    if limit == 0 then Offset(rounds, |rounds|) + 1 else limit
  }

  /** Where a copy stands before round i. */
  predicate Stands(rounds: seq<Round>, i: nat, s: State, limit: nat, sparse: bool)
    requires i <= |rounds|
  {
    var bound := Bound(rounds, limit);
    && s.sparse == StillSparse(rounds, i, bound, sparse)
    && s.size == (if limit == 0 then BUFFER_SIZE else if Offset(rounds, i) < limit then limit - Offset(rounds, i) else 0)
    && s.lastWasSeek == (i > 0 && IsHoleRound(rounds, i - 1, bound) && s.sparse)
    && (i > 0 ==> Offset(rounds, i - 1) < bound)
  }

  lemma ChunkIsCut(rounds: seq<Round>, i: nat, s: State, limit: nat, sparse: bool)
    requires i < |rounds| && rounds[i].Data? && Readable(rounds) && Stands(rounds, i, s, limit, sparse)
    ensures Chunk(rounds[i].bytes, s) == Cut(rounds, i, Bound(rounds, limit))
    ensures Chunk(rounds[i].bytes, s) == [] <==> Bound(rounds, limit) <= Offset(rounds, i)
  {
    OffsetGrows(rounds, i + 1, |rounds|);
  }

  lemma StandsNext(rounds: seq<Round>, i: nat, s: State, limit: nat, sparse: bool)
    requires i < |rounds| && rounds[i].Data? && Readable(rounds) && Stands(rounds, i, s, limit, sparse)
    requires Chunk(rounds[i].bytes, s) != []
    ensures Stands(rounds, i + 1, Next(rounds[i], s, limit == 0), limit, sparse)
  {
    var bound := Bound(rounds, limit);
    ChunkIsCut(rounds, i, s, limit, sparse);
    assert StillSparse(rounds, i + 1, bound, sparse) <==>
      StillSparse(rounds, i, bound, sparse) && (IsHoleRound(rounds, i, bound) ==> rounds[i].seekOk);
  }

  lemma AtLimit(rounds: seq<Round>, i: nat, s: State, limit: nat, sparse: bool)
    requires i <= |rounds| && limit > 0 && Stands(rounds, i, s, limit, sparse)
    ensures i == |rounds| ==> !LosesHole(rounds, limit, sparse)
    ensures i < |rounds| && s.size == 0 ==> (LosesHole(rounds, limit, sparse) <==> s.lastWasSeek)
  {
    forall k | 0 <= k < |rounds| && EndsOnHole(rounds, k, limit, sparse) ensures i < |rounds| && (s.size == 0 ==> k == i - 1) {
      if k + 1 < i {
        OffsetGrows(rounds, k + 1, i - 1);
      } else if i <= k {
        OffsetGrows(rounds, i, k);
      }
    }
    if i < |rounds| && s.size == 0 && s.lastWasSeek {
      assert EndsOnHole(rounds, i - 1, limit, sparse);
    }
  }

  lemma {:induction false} LimitOnHole(rounds: seq<Round>, i: nat, s: State, limit: nat, sparse: bool, fixupOk: bool)
    requires i <= |rounds| && Readable(rounds) && limit > 0 && Stands(rounds, i, s, limit, sparse)
    ensures var (s', end) := Run(rounds, i, s, false, fixupOk);
      end != Failed ==> (LosesHole(rounds, limit, sparse) <==> end == LimitReached && s'.lastWasSeek)
    decreases |rounds| - i
  {
    AtLimit(rounds, i, s, limit, sparse);
    if i < |rounds| && rounds[i].Data? && s.size > 0 {
      StandsNext(rounds, i, s, limit, sparse);
      LimitOnHole(rounds, i + 1, Next(rounds[i], s, false), limit, sparse, fixupOk);
    }
  }

  /** The exact condition on the reads: without error, the bytes copied are the wanted
      ones if and only if the copy does not stop at its limit on a hole. */
  lemma HoleLostIff(rounds: seq<Round>, content: seq<Byte>, limit: nat, sparse: bool, fixupOk: bool)
    requires Readable(rounds)
    ensures var (s, end) := Run(rounds, 0, Start(content, limit, sparse), limit == 0, fixupOk);
      end != Failed ==> (s.content == content + Wanted(Source(rounds), limit) <==> !LosesHole(rounds, limit, sparse))
  {
    CopyIsExact(rounds, content, limit, sparse, fixupOk);
    if limit > 0 {
      LimitOnHole(rounds, 0, Start(content, limit, sparse), limit, sparse, fixupOk);
    }
  }

  // ----- when a copy succeeds -----

  /** What is wanted of round k can be seeked over, like every hole before it, or is written in full. */
  predicate Transfers(rounds: seq<Round>, k: nat, limit: nat, sparse: bool)
    requires k < |rounds|
  {
    rounds[k].Data? &&
    ((IsHoleRound(rounds, k, limit) && StillSparse(rounds, k + 1, limit, sparse)) || rounds[k].writable >= |Cut(rounds, k, limit)|)
  }

  /** Round k is read without error, if it is read, and transferred, if something of it is wanted. */
  predicate GoesWell(rounds: seq<Round>, k: nat, limit: nat, sparse: bool)
    requires k < |rounds|
  {
    k == 0 || Offset(rounds, k - 1) < limit ==>
      rounds[k].Data? && (Offset(rounds, k) < limit ==> Transfers(rounds, k, limit, sparse))
  }

  /** The source ends on a hole that has been seeked over. */
  predicate EndsInHole(rounds: seq<Round>, limit: nat, sparse: bool) {
    |rounds| > 0 && IsHoleRound(rounds, |rounds| - 1, limit) && StillSparse(rounds, |rounds|, limit, sparse)
  }

  /** Every round up to the limit goes well, and a hole at the end of the source can be closed. */
  predicate Succeeds(rounds: seq<Round>, limit: nat, sparse: bool, fixupOk: bool) {
    var bound := Bound(rounds, limit);
    && (forall k | 0 <= k < |rounds| :: GoesWell(rounds, k, bound, sparse))
    && (EndsInHole(rounds, bound, sparse) ==> fixupOk)
  }

  lemma RestAfterLimit(rounds: seq<Round>, i: nat, limit: nat, sparse: bool)
    requires i < |rounds| && rounds[i].Data? && limit <= Offset(rounds, i) && i > 0 && Offset(rounds, i - 1) < limit
    ensures forall k | i <= k < |rounds| :: GoesWell(rounds, k, limit, sparse)
    ensures !EndsInHole(rounds, limit, sparse)
  {
    forall k | i <= k < |rounds| ensures GoesWell(rounds, k, limit, sparse) && limit <= Offset(rounds, k) {
      OffsetGrows(rounds, i, k);
      if k > i {
        OffsetGrows(rounds, i, k - 1);
      }
    }
  }

  lemma {:induction false} RunSucceedsIff(rounds: seq<Round>, i: nat, s: State, limit: nat, sparse: bool, fixupOk: bool)
    requires i <= |rounds| && Readable(rounds) && Stands(rounds, i, s, limit, sparse) && (s.lastWasSeek ==> s.pos > 0)
    ensures Run(rounds, i, s, limit == 0, fixupOk).1 != Failed <==>
      && (forall k | i <= k < |rounds| :: GoesWell(rounds, k, Bound(rounds, limit), sparse))
      && (EndsInHole(rounds, Bound(rounds, limit), sparse) ==> fixupOk)
    decreases |rounds| - i
  {
    var bound := Bound(rounds, limit);
    if i < |rounds| && rounds[i].ReadError? {
      assert !GoesWell(rounds, i, bound, sparse);
    } else if i < |rounds| {
      ChunkIsCut(rounds, i, s, limit, sparse);
      if bound <= Offset(rounds, i) {
        RestAfterLimit(rounds, i, bound, sparse);
      } else {
        assert StillSparse(rounds, i + 1, bound, sparse) <==>
          s.sparse && (IsHoleRound(rounds, i, bound) ==> rounds[i].seekOk);
        assert Transfers(rounds, i, bound, sparse) <==>
          Seeks(rounds[i], s) || rounds[i].writable >= |Chunk(rounds[i].bytes, s)|;
        if Transfers(rounds, i, bound, sparse) {
          StandsNext(rounds, i, s, limit, sparse);
          RunSucceedsIff(rounds, i + 1, Next(rounds[i], s, limit == 0), limit, sparse, fixupOk);
        } else {
          assert !GoesWell(rounds, i, bound, sparse);
        }
      }
    }
  }

  lemma PutAppends(content: seq<Byte>, pos: nat, x: seq<Byte>)
    requires |content| <= pos
    ensures content <= PutAt(content, pos, x)
  {
    if pos == |content| {
      assert content[..pos] == content;
    }
  }

  /** However a copy ends, what the file held before is still there. */
  lemma {:induction false} RunAppends(rounds: seq<Round>, i: nat, s: State, toEof: bool, fixupOk: bool)
    requires i <= |rounds| && |s.content| <= s.pos && (s.lastWasSeek ==> |s.content| < s.pos)
    ensures s.content <= Run(rounds, i, s, toEof, fixupOk).0.content
    decreases |rounds| - i
  {
    if i == |rounds| && s.lastWasSeek {
      PutAppends(s.content, s.pos - 1, [0]);
    } else if i < |rounds| && rounds[i].Data? && Chunk(rounds[i].bytes, s) != [] {
      var chunk := Chunk(rounds[i].bytes, s);
      PutAppends(s.content, s.pos, chunk);
      if Seeks(rounds[i], s) || rounds[i].writable >= |chunk| {
        RunAppends(rounds, i + 1, Next(rounds[i], s, toEof), toEof, fixupOk);
      } else {
        PutAppends(s.content, s.pos, chunk[..rounds[i].writable]);
      }
    }
  }

  /** The exact condition on the rounds for a copy to succeed. */
  lemma CopySucceedsIff(rounds: seq<Round>, content: seq<Byte>, limit: nat, sparse: bool, fixupOk: bool)
    requires Readable(rounds)
    ensures Run(rounds, 0, Start(content, limit, sparse), limit == 0, fixupOk).1 != Failed <==> Succeeds(rounds, limit, sparse, fixupOk)
  {
    RunSucceedsIff(rounds, 0, Start(content, limit, sparse), limit, sparse, fixupOk);
  }

  /** What a caller can tell beforehand: no hole is lost at a limit unless the last byte
      wanted is zero. */
  lemma NonzeroEndIsKept(rounds: seq<Round>, content: seq<Byte>, limit: nat, sparse: bool, fixupOk: bool)
    requires Readable(rounds)
    requires Wanted(Source(rounds), limit) != [] ==> Wanted(Source(rounds), limit)[|Wanted(Source(rounds), limit)| - 1] != 0
    ensures var (s, end) := Run(rounds, 0, Start(content, limit, sparse), limit == 0, fixupOk);
      end != Failed ==> s.content == content + Wanted(Source(rounds), limit)
  {
    CopyIsExact(rounds, content, limit, sparse, fixupOk);
    RunOutcome(rounds, 0, Start(content, limit, sparse), limit == 0, fixupOk, content);
    var (s, end) := Run(rounds, 0, Start(content, limit, sparse), limit == 0, fixupOk);
    if end == LimitReached {
      var want := content + Wanted(Source(rounds), limit);
      assert StandsFor(s, want);
      assert want[|want| - 1] != 0;
      assert !s.lastWasSeek;
    }
  }

  /** Such a copy: one zero byte is wanted, and the file stays empty. */
  lemma HoleIsLost(fixupOk: bool)
    ensures var rounds := [Data([0], true, 1), Data([1], true, 1)];
      var (s, end) := Run(rounds, 0, Start([], 1, true), false, fixupOk);
      end == LimitReached && s.content == [] && Wanted(Source(rounds), 1) == [0]
  {
    var rounds := [Data([0], true, 1), Data([1], true, 1)];
    assert Source(rounds, 2) == [] && Source(rounds, 1) == [1];
    assert Source(rounds, 0) == [0, 1];
  }
}
