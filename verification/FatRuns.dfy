/** Whole runs of seeks and reads: the driver behaves like one cursor per open file
    over the content of that file. */
module FatRuns {
  import opened Bytes
  import opened Memory
  import opened FatSpec
  import opened FatFiles
  import opened FatCursors
  import opened FatDriver

  /** An open regular file: its content, its clusters and their length in sectors, and
      its position. */
  datatype Cursor = Cursor(content: seq<Byte>, chain: Chain, sectors: nat, position: nat)

  type Desk = d: seq<Option<Cursor>> | |d| == HANDLES witness seq(HANDLES, _ => None)

  datatype Op = SeekTo(h: nat, position: nat) | ReadNext(h: nat, n: nat)

  datatype Answer = Landed(ok: bool) | Data(bytes: seq<Byte>)

  function Answered(c: Option<Cursor>, op: Op): Answer {
    match op
    case SeekTo(_, p) => Landed(c.Some? && p <= |c.value.content| && p < |c.value.chain| * c.value.sectors * 512)
    case ReadNext(_, n) =>
      if c.Some? && c.value.position <= |c.value.content| then
        Data(c.value.content[c.value.position..Min(c.value.position + n, |c.value.content|)])
      else Data([])
  }

  function Moved(c: Option<Cursor>, op: Op): Option<Cursor> {
    if c == None then None
    else match op
      case SeekTo(_, p) => if p <= |c.value.content| then Some(c.value.(position := p)) else c
      case ReadNext(_, n) => Some(c.value.(position := Min(c.value.position + n, |c.value.content|)))
  }

  /** The clusters whose entries an operation looks up: one for each cluster boundary on
      the way. */
  function LookedUp(c: Option<Cursor>, op: Op): seq<nat> {
    if c == None then []
    else match op
      case SeekTo(_, p) => if p <= |c.value.content| then Boundaries(c.value, 0, p) else []
      case ReadNext(_, n) => Boundaries(c.value, c.value.position, Min(c.value.position + n, |c.value.content|))
  }

  function Boundaries(c: Cursor, a: nat, b: nat): seq<nat> {
    if c.sectors > 0 && a / 512 / c.sectors <= b / 512 / c.sectors <= |c.chain| then
      c.chain[a / 512 / c.sectors..b / 512 / c.sectors]
    else []
  }

  /** No lookup of a whole run is a straddling hit of the cache. */
  predicate UntroubledRun(d: Desk, ops: seq<Op>, cache: nat)
    requires forall i | 0 <= i < |ops| :: ops[i].h < HANDLES
    decreases |ops|
  {
    ops == []
    || (var h := ops[0].h;
        var clusters := LookedUp(d[h], ops[0]);
        && Untroubled(cache, clusters)
        && UntroubledRun(d[h := Moved(d[h], ops[0])], ops[1..], PositionAfter(cache, clusters)))
  }

  /** The file of the cursor avoids the five clusters. */
  predicate CalmCursor(c: Option<Cursor>) { c.Some? ==> Calm(c.value.chain) }

  lemma CalmStep(c: Option<Cursor>, op: Op, cache: nat)
    requires CalmCursor(c)
    ensures Untroubled(cache, LookedUp(c, op)) && CalmCursor(Moved(c, op))
  {
    if c.Some? {
      var to := match op
        case SeekTo(_, p) => p
        case ReadNext(_, n) => Min(c.value.position + n, |c.value.content|);
      var from := if op.SeekTo? then 0 else c.value.position;
      CalmBoundaries(c.value, from, to, cache);
    }
  }

  lemma CalmBoundaries(c: Cursor, a: nat, b: nat, cache: nat)
    requires Calm(c.chain)
    ensures Untroubled(cache, Boundaries(c, a, b))
  {
    var clusters := Boundaries(c, a, b);
    if clusters != [] {
      forall i: nat | i < |clusters|
        ensures clusters[i] < 0xFF8 && !Risky(clusters[i])
      {
        assert clusters[i] == c.chain[a / 512 / c.sectors + i];
      }
    }
    CalmIsUntroubled(cache, clusters);
  }

  /** Every run over files that avoid the five clusters is untroubled. */
  lemma {:induction false} CalmRun(d: Desk, ops: seq<Op>, cache: nat)
    requires forall i | 0 <= i < |ops| :: ops[i].h < HANDLES
    requires forall h: nat {:trigger d[h]} | h < HANDLES :: CalmCursor(d[h])
    ensures UntroubledRun(d, ops, cache)
    decreases |ops|
  {
    if ops != [] {
      var h := ops[0].h;
      CalmStep(d[h], ops[0], cache);
      var next: Desk := d[h := Moved(d[h], ops[0])];
      CalmRun(next, ops[1..], PositionAfter(cache, LookedUp(d[h], ops[0])));
    }
  }

  /** A run over values. */
  function Play(d: Desk, ops: seq<Op>): (seq<Answer>, Desk)
    requires forall i | 0 <= i < |ops| :: ops[i].h < HANDLES
    decreases |ops|
  {
    if ops == [] then ([], d)
    else
      var h := ops[0].h;
      var rest := Play(d[h := Moved(d[h], ops[0])], ops[1..]);
      ([Answered(d[h], ops[0])] + rest.0, rest.1)
  }

  lemma {:induction false} PlayOneMore(d: Desk, ops: seq<Op>, op: Op)
    requires op.h < HANDLES && forall i | 0 <= i < |ops| :: ops[i].h < HANDLES
    ensures var played := Play(d, ops);
      Play(d, ops + [op]) == (played.0 + [Answered(played.1[op.h], op)], played.1[op.h := Moved(played.1[op.h], op)])
    decreases |ops|
  {
    var all := ops + [op];
    if ops == [] {
      var next: Desk := d[op.h := Moved(d[op.h], op)];
      assert all[0] == op && all[1..] == [] && Play(next, all[1..]) == ([], next);
      var last := [Answered(d[op.h], op)];
      assert Play(d, all) == (last + Play(next, all[1..]).0, next);
      assert Play(d, ops) == ([], d) && Play(d, ops).0 + last == last;
      assert Play(d, all).0 == last;
      assert Play(d, ops + [op]) == (last, next);
    } else {
      var h := ops[0].h;
      assert all[0] == ops[0] && all[1..] == ops[1..] + [op];
      var next: Desk := d[h := Moved(d[h], ops[0])];
      PlayOneMore(next, ops[1..], op);
      var first, played := [Answered(d[h], ops[0])], Play(next, ops[1..]);
      var last := [Answered(played.1[op.h], op)];
      assert Play(d, all).0 == first + (played.0 + last) == first + played.0 + last;
    }
  }

  // ----- isolation

  /** What a run does on one handle. */
  function On(h: nat, ops: seq<Op>): (r: seq<Op>)
    ensures forall i | 0 <= i < |r| :: r[i].h == h
  {
    if ops == [] then [] else (if ops[0].h == h then [ops[0]] else []) + On(h, ops[1..])
  }

  function AnswersOn(h: nat, ops: seq<Op>, answers: seq<Answer>): seq<Answer>
    requires |answers| == |ops|
  {
    if ops == [] then []
    else (if ops[0].h == h then [answers[0]] else []) + AnswersOn(h, ops[1..], answers[1..])
  }

  lemma {:induction false} OneAnswerEach(d: Desk, ops: seq<Op>)
    requires forall i | 0 <= i < |ops| :: ops[i].h < HANDLES
    ensures |Play(d, ops).0| == |ops|
    decreases |ops|
  {
    if ops != [] {
      var h := ops[0].h;
      OneAnswerEach(d[h := Moved(d[h], ops[0])], ops[1..]);
    }
  }

  /** What a handle sees of a run is the run of its own operations alone. */
  lemma {:induction false} Isolated(d: Desk, d': Desk, ops: seq<Op>, h: nat)
    requires h < HANDLES && d[h] == d'[h] && forall i | 0 <= i < |ops| :: ops[i].h < HANDLES
    ensures |Play(d, ops).0| == |ops|
    ensures AnswersOn(h, ops, Play(d, ops).0) == Play(d', On(h, ops)).0
    ensures Play(d, ops).1[h] == Play(d', On(h, ops)).1[h]
    decreases |ops|
  {
    OneAnswerEach(d, ops);
    if ops != [] {
      var op := ops[0];
      var next: Desk := d[op.h := Moved(d[op.h], op)];
      var answers := Play(d, ops).0;
      assert answers[1..] == Play(next, ops[1..]).0;
      if op.h == h {
        assert On(h, ops) == [op] + On(h, ops[1..]) && On(h, ops)[1..] == On(h, ops[1..]);
        Isolated(next, d'[h := Moved(d'[h], op)], ops[1..], h);
      } else {
        assert On(h, ops) == On(h, ops[1..]);
        Isolated(next, d', ops[1..], h);
      }
    }
  }

  /** Reads in any pieces: the file from the position on, without gaps. */
  function Pieces(answers: seq<Answer>): seq<Byte> {
    if answers == [] then [] else (if answers[0].Data? then answers[0].bytes else []) + Pieces(answers[1..])
  }

  lemma PiecesStep(first: Answer, rest: seq<Answer>)
    requires first.Data?
    ensures Pieces([first] + rest) == first.bytes + Pieces(rest)
  {
    assert ([first] + rest)[1..] == rest;
  }

  function Asked(ops: seq<Op>): nat {
    if ops == [] then 0 else (if ops[0].ReadNext? then ops[0].n else 0) + Asked(ops[1..])
  }

  /** The `n` bytes from `p` on, as far as there are so many. */
  function Part(s: seq<Byte>, p: nat, n: nat): seq<Byte>
    requires p <= |s|
  {
    s[p..Min(p + n, |s|)]
  }

  /** Reading `n` bytes and then `k` bytes is reading `n + k` bytes. */
  lemma TwoParts(s: seq<Byte>, p: nat, n: nat, k: nat, all: seq<Byte>)
    requires p <= |s| && all == Part(s, p, n) + Part(s, Min(p + n, |s|), k)
    ensures all == Part(s, p, n + k)
  {
  }

  /** The reads `ops` on handle `h`. */
  predicate OnlyReads(ops: seq<Op>, h: nat) {
    h < HANDLES && forall i | 0 <= i < |ops| :: ops[i].ReadNext? && ops[i].h == h
  }

  /** All bytes that the reads of a cursor return. */
  function AllRead(c: Cursor, ops: seq<Op>): seq<Byte>
    requires forall i | 0 <= i < |ops| :: ops[i].ReadNext?
    requires c.position <= |c.content|
    decreases |ops|
  {
    if ops == [] then []
    else
      var n := ops[0].n;
      Part(c.content, c.position, n) + AllRead(c.(position := Min(c.position + n, |c.content|)), ops[1..])
  }

  lemma {:induction false} AllReadIsPart(c: Cursor, ops: seq<Op>)
    requires forall i | 0 <= i < |ops| :: ops[i].ReadNext?
    requires c.position <= |c.content|
    ensures AllRead(c, ops) == Part(c.content, c.position, Asked(ops))
    decreases |ops|
  {
    if ops != [] {
      var n := ops[0].n;
      AllReadIsPart(c.(position := Min(c.position + n, |c.content|)), ops[1..]);
      TwoParts(c.content, c.position, n, Asked(ops[1..]), AllRead(c, ops));
    }
  }

  lemma ReadMoves(c: Cursor, op: Op)
    requires op.ReadNext? && c.position <= |c.content|
    ensures Answered(Some(c), op) == Data(Part(c.content, c.position, op.n))
    ensures Moved(Some(c), op) == Some(c.(position := Min(c.position + op.n, |c.content|)))
  {
  }

  lemma PlayFirst(d: Desk, ops: seq<Op>, h: nat)
    requires ops != [] && ops[0].h == h && forall i | 0 <= i < |ops| :: ops[i].h < HANDLES
    ensures Play(d, ops).0 == [Answered(d[h], ops[0])] + Play(d[h := Moved(d[h], ops[0])], ops[1..]).0
  {
  }

  lemma {:induction false} PlayReads(d: Desk, ops: seq<Op>, h: nat, c: Cursor)
    requires OnlyReads(ops, h) && d[h] == Some(c) && c.position <= |c.content|
    ensures Pieces(Play(d, ops).0) == AllRead(c, ops)
    decreases |ops|
  {
    if ops != [] {
      ReadMoves(c, ops[0]);
      PlayFirst(d, ops, h);
      var c' := c.(position := Min(c.position + ops[0].n, |c.content|));
      PlayReads(d[h := Some(c')], ops[1..], h, c');
      PiecesStep(Answered(Some(c), ops[0]), Play(d[h := Some(c')], ops[1..]).0);
    }
  }

  lemma PiecesJoin(d: Desk, ops: seq<Op>, h: nat, c: Cursor)
    requires OnlyReads(ops, h) && d[h] == Some(c) && c.position <= |c.content|
    ensures Pieces(Play(d, ops).0) == Part(c.content, c.position, Asked(ops))
  {
    PlayReads(d, ops, h, c);
    AllReadIsPart(c, ops);
  }

  // ----- the driver

  /** The cursor a handle stands for. */
  ghost function CursorOf(v: Volume, chains: Catalog, fd: FileData): Option<Cursor>
    requires HandleOk(v, chains, fd)
  {
    if fd.isOpen && !fd.isDirectory then
      var chain := chains[fd.firstCluster];
      Some(Cursor(Slice(v, chain, 0, fd.size), chain, v.spc, fd.position))
    else None
  }

  ghost function DeskOf(v: Volume, chains: Catalog, files: seq<FileData>): (d: Desk)
    requires HandlesOk(v, chains, files)
  {
    seq<Option<Cursor>>(HANDLES, h requires 0 <= h < HANDLES => CursorOf(v, chains, files[h]))
  }

  /** Not an open directory. */
  predicate Regular(fd: FileData) { fd.isOpen ==> !fd.isDirectory }

  lemma ReadRefines(v: Volume, chains: Catalog, fd: FileData, fd': FileData, n: nat, data: seq<Byte>, h: nat)
    requires HandleOk(v, chains, fd) && HandleOk(v, chains, fd') && Regular(fd)
    requires if fd.isOpen then ReadDone(v, fd, fd', chains[fd.firstCluster], data, n) else data == [] && fd' == fd
    ensures CursorOf(v, chains, fd') == Moved(CursorOf(v, chains, fd), ReadNext(h, n))
    ensures Data(data) == Answered(CursorOf(v, chains, fd), ReadNext(h, n)) && Regular(fd')
  {
    if fd.isOpen {
      var content := CursorOf(v, chains, fd).value.content;
      assert data == content[fd.position..Min(fd.position + n, fd.size)];
    }
  }

  lemma SeekRefines(v: Volume, chains: Catalog, fd: FileData, fd': FileData, position: nat, ok: bool, h: nat)
    requires HandleOk(v, chains, fd) && HandleOk(v, chains, fd') && Regular(fd)
    requires Sought(v, chains, fd, fd', position, ok)
    ensures CursorOf(v, chains, fd') == Moved(CursorOf(v, chains, fd), SeekTo(h, position))
    ensures Landed(ok) == Answered(CursorOf(v, chains, fd), SeekTo(h, position)) && Regular(fd')
  {
  }

  /** One operation on the driver. */
  method Perform(driver: Driver, op: Op) returns (answer: Answer)
    requires driver.Valid() && op.h < HANDLES && Regular(driver.files[op.h])
    requires Untroubled(driver.fatCachePosition, LookedUp(DeskOf(driver.vol, driver.chains, driver.files)[op.h], op))
    modifies driver`files, driver`fatCache, driver`fatCachePosition
    ensures driver.Valid() && driver.files == old(driver.files)[op.h := driver.files[op.h]]
    ensures Regular(driver.files[op.h])
    ensures var d := old(DeskOf(driver.vol, driver.chains, driver.files));
      && driver.fatCachePosition == PositionAfter(old(driver.fatCachePosition), LookedUp(d[op.h], op))
      && answer == Answered(d[op.h], op)
      && CursorOf(driver.vol, driver.chains, driver.files[op.h]) == Moved(d[op.h], op)
  {
    ghost var fd := driver.files[op.h];
    SameLookups(driver.vol, driver.chains, driver.files, op);
    match op {
      case SeekTo(h, p) =>
        var ok := driver.Seek(h, p);
        SeekRefines(driver.vol, driver.chains, fd, driver.files[h], p, ok, h);
        answer := Landed(ok);
      case ReadNext(h, n) =>
        var data := driver.Read(h, n);
        ReadRefines(driver.vol, driver.chains, fd, driver.files[h], n, data, h);
        answer := Data(data);
    }
  }

  /** The driver looks up the clusters that the cursors say. */
  lemma SameLookups(v: Volume, chains: Catalog, files: seq<FileData>, op: Op)
    requires HandlesOk(v, chains, files) && op.h < HANDLES && Regular(files[op.h])
    ensures LookedUp(DeskOf(v, chains, files)[op.h], op) ==
      match op
      case SeekTo(h, p) => SeekLookups(v, chains, files, h, p)
      case ReadNext(h, n) => ReadLookups(v, chains, files, h, n)
  {
    var fd := files[op.h];
    if fd.isOpen {
      OpenHandle(v, chains, files, op.h);
      var c := CursorOf(v, chains, fd).value;
      match op {
        case SeekTo(_, p) => SameBoundaries(v, c, 0, p);
        case ReadNext(_, n) => SameBoundaries(v, c, fd.position, Goal(v, fd, c.chain, n));
      }
    }
  }

  lemma SameBoundaries(v: Volume, c: Cursor, a: nat, b: nat)
    requires c.sectors == v.spc > 0
    ensures Boundaries(c, a, b) == Crossed(v, c.chain, a, b)
  {
  }

  /** The operations from `i` on are on open regular files, if the handles are open, and
      are untroubled. */
  ghost predicate Remaining(v: Volume, chains: Catalog, files: seq<FileData>, ops: seq<Op>, i: nat, cache: nat) {
    && HandlesOk(v, chains, files) && i <= |ops|
    && (forall k | 0 <= k < |ops| :: ops[k].h < HANDLES && Regular(files[ops[k].h]))
    && UntroubledRun(DeskOf(v, chains, files), ops[i..], cache)
  }

  lemma NextReady(v: Volume, chains: Catalog, files: seq<FileData>, ops: seq<Op>, i: nat, cache: nat)
    requires Remaining(v, chains, files, ops, i, cache) && i < |ops|
    ensures ops[i].h < HANDLES && Regular(files[ops[i].h])
    ensures Untroubled(cache, LookedUp(DeskOf(v, chains, files)[ops[i].h], ops[i]))
  {
    assert ops[i..][0] == ops[i];
  }

  lemma NextDone(v: Volume, chains: Catalog, was: seq<FileData>, files: seq<FileData>, ops: seq<Op>, i: nat, cache: nat)
    requires Remaining(v, chains, was, ops, i, cache) && i < |ops| && HandlesOk(v, chains, files)
    requires files == was[ops[i].h := files[ops[i].h]] && Regular(files[ops[i].h])
    requires CursorOf(v, chains, files[ops[i].h]) == Moved(DeskOf(v, chains, was)[ops[i].h], ops[i])
    ensures var d := DeskOf(v, chains, was);
      && DeskOf(v, chains, files) == d[ops[i].h := Moved(d[ops[i].h], ops[i])]
      && Remaining(v, chains, files, ops, i + 1, PositionAfter(cache, LookedUp(d[ops[i].h], ops[i])))
  {
    var d := DeskOf(v, chains, was);
    assert DeskOf(v, chains, files) == d[ops[i].h := CursorOf(v, chains, files[ops[i].h])];
    assert ops[i..][0] == ops[i] && ops[i..][1..] == ops[i + 1..];
  }

  lemma PlayNext(d: Desk, ops: seq<Op>, i: nat)
    requires i < |ops| && forall k | 0 <= k < |ops| :: ops[k].h < HANDLES
    ensures var (answers, e) := Play(d, ops[..i]);
      Play(d, ops[..i + 1]) == (answers + [Answered(e[ops[i].h], ops[i])], e[ops[i].h := Moved(e[ops[i].h], ops[i])])
  {
    PlayOneMore(d, ops[..i], ops[i]);
    assert ops[..i + 1] == ops[..i] + [ops[i]];
  }

  /** In every run of seeks and reads on open files in which no lookup is a straddling hit,
      the driver gives the answers of the cursors, and its cursors end where theirs do. */
  method Replay(driver: Driver, ops: seq<Op>) returns (answers: seq<Answer>)
    requires driver.Valid()
    requires forall i | 0 <= i < |ops| :: ops[i].h < HANDLES && Regular(driver.files[ops[i].h])
    requires UntroubledRun(DeskOf(driver.vol, driver.chains, driver.files), ops, driver.fatCachePosition)
    modifies driver`files, driver`fatCache, driver`fatCachePosition
    ensures driver.Valid()
    ensures (answers, DeskOf(driver.vol, driver.chains, driver.files))
            == Play(old(DeskOf(driver.vol, driver.chains, driver.files)), ops)
  {
    answers := [];
    ghost var d := DeskOf(driver.vol, driver.chains, driver.files);
    assert ops[0..] == ops;
    for i := 0 to |ops|
      invariant driver.Valid()
      invariant Remaining(driver.vol, driver.chains, driver.files, ops, i, driver.fatCachePosition)
      invariant (answers, DeskOf(driver.vol, driver.chains, driver.files)) == Play(d, ops[..i])
    {
      ghost var was, cache := driver.files, driver.fatCachePosition;
      NextReady(driver.vol, driver.chains, was, ops, i, cache);
      var answer := Perform(driver, ops[i]);
      PlayNext(d, ops, i);
      NextDone(driver.vol, driver.chains, was, driver.files, ops, i, cache);
      answers := answers + [answer];
    }
    assert ops[..|ops|] == ops;
  }
}
