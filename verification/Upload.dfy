// The chunked upload of cgiappfs.c into a flash file, when every appfs call
// succeeds.
module Upload {
  import opened Words

  const PAGELEN: nat := 16384
  const ERASE_SIZE: nat := 32768   // SPI_FLASH_ERASE_SIZE

  /** The calls made to appfs. */
  datatype Op = Create(size: nat) | Erase(addr: nat, len: nat) | Write(addr: nat, data: seq<bv8>) | Rename

  datatype Phase = FLST_START | FLST_WRITE | FLST_DONE

  /** UploadState; page is what pageData holds so far, len what is still to come. */
  datatype State = State(phase: Phase, page: seq<bv8>, address: nat, len: nat, log: seq<Op>)

  /** What finishes the page buffer. */
  function LenLeft(st: State): nat
    requires |st.page| <= PAGELEN
  {
    Min(PAGELEN - |st.page|, st.len)
  }

  /** Erase if a stretch begins here, then write one page. */
  function OnePage(address: nat, data: seq<bv8>): seq<Op> {
    (if address % ERASE_SIZE == 0 then [Erase(address, ERASE_SIZE)] else []) + [Write(address, data)]
  }

  /** Flash the page, complete with data. */
  function Flush(st: State, data: seq<bv8>): State
    requires |data| <= st.len
  {
    var log := OnePage(st.address, st.page + data) + (if st.len == |data| then [Rename] else []);
    State(if st.len == |data| then FLST_DONE else FLST_WRITE, [], st.address + PAGELEN, st.len - |data|, st.log + log)
  }

  function Rank(p: Phase): nat {
    match p
    case FLST_START => 2
    case FLST_WRITE => 1
    case FLST_DONE => 0
  }

  /** The loop of cgiUploadFile over one buffer; postLen is the length of the body. */
  function Feed(postLen: nat, st: State, data: seq<bv8>): (r: State)
    requires |st.page| < PAGELEN
    ensures |r.page| < PAGELEN
    decreases |data|, Rank(st.phase)
  {
    if data == [] then st
    else
      match st.phase
      case FLST_START =>
        Feed(postLen, st.(phase := FLST_WRITE, len := postLen, address := 0, log := st.log + [Create(postLen)]), data)
      case FLST_WRITE =>
        var n := LenLeft(st);
        if |data| < n then st.(page := st.page + data, len := st.len - |data|)
        else Feed(postLen, Flush(st, data[..n]), data[n..])
      case FLST_DONE => st
  }

  function Begin(): State { State(FLST_START, [], 0, 0, []) }

  function Concat(chunks: seq<seq<bv8>>): seq<bv8> {
    if chunks == [] then [] else chunks[0] + Concat(chunks[1..])
  }

  /** The calls of cgiUploadFile, one for each buffer that arrives. */
  function FeedAll(postLen: nat, st: State, chunks: seq<seq<bv8>>): State
    requires |st.page| < PAGELEN
    decreases |chunks|
  {
    if chunks == [] then st else FeedAll(postLen, Feed(postLen, st, chunks[0]), chunks[1..])
  }

  // ------------------------------------------------------- chunking is immaterial

  /** Filling a page in two steps. */
  lemma FillInTwo(postLen: nat, st: State, a: seq<bv8>, b: seq<bv8>)
    requires st.phase == FLST_WRITE && |st.page| < PAGELEN && a != [] && b != [] && |a| < LenLeft(st)
    ensures Feed(postLen, st, a + b) == Feed(postLen, Feed(postLen, st, a), b)
  {
    var n, st' := LenLeft(st), st.(page := st.page + a, len := st.len - |a|);
    assert Feed(postLen, st, a) == st';
    assert LenLeft(st') == n - |a|;
    assert st.page + (a + b) == st.page + a + b;
    if |a + b| >= n {
      var c := b[..n - |a|];
      assert (a + b)[..n] == a + c && (a + b)[n..] == b[n - |a|..];
      assert st.page + (a + c) == st.page + a + c;
      assert Flush(st, a + c) == Flush(st', c);
    }
  }

  /** Two buffers have the effect of their concatenation. */
  lemma {:induction false} FeedTwo(postLen: nat, st: State, a: seq<bv8>, b: seq<bv8>)
    requires |st.page| < PAGELEN
    ensures Feed(postLen, st, a + b) == Feed(postLen, Feed(postLen, st, a), b)
    decreases |a|, Rank(st.phase)
  {
    if a == [] {
      assert a + b == b;
    } else if b == [] {
      assert a + b == a;
    } else if st.phase == FLST_START {
      FeedTwo(postLen, st.(phase := FLST_WRITE, len := postLen, address := 0, log := st.log + [Create(postLen)]), a, b);
    } else if st.phase == FLST_WRITE {
      var n := LenLeft(st);
      if |a| < n {
        FillInTwo(postLen, st, a, b);
      } else {
        assert (a + b)[..n] == a[..n] && (a + b)[n..] == a[n..] + b;
        FeedTwo(postLen, Flush(st, a[..n]), a[n..], b);
      }
    }
  }

  /** However the body is split, the calls to appfs are the same. */
  lemma {:induction false} ChunkingIsImmaterial(postLen: nat, st: State, chunks: seq<seq<bv8>>)
    requires |st.page| < PAGELEN
    ensures FeedAll(postLen, st, chunks) == Feed(postLen, st, Concat(chunks))
    decreases |chunks|
  {
    hide Feed;
    if chunks == [] {
      FeedNothing(postLen, st);
    } else {
      ChunkingIsImmaterial(postLen, Feed(postLen, st, chunks[0]), chunks[1..]);
      FeedTwo(postLen, st, chunks[0], Concat(chunks[1..]));
    }
  }

  lemma FeedNothing(postLen: nat, st: State)
    requires |st.page| < PAGELEN
    ensures Feed(postLen, st, []) == st
  {
  }

  // ----------------------------------------------------------- what is written

  /** The calls for what is left of the body, from address on. */
  function Pages(rest: seq<bv8>, address: nat): seq<Op>
    decreases |rest|
  {
    if rest == [] then []
    else
      var n := Min(PAGELEN, |rest|);
      OnePage(address, rest[..n]) + (if n == |rest| then [Rename] else Pages(rest[n..], address + PAGELEN))
  }

  lemma FeedUnfold(postLen: nat, st: State, data: seq<bv8>)
    requires |st.page| < PAGELEN && data != []
    ensures Feed(postLen, st, data) ==
            match st.phase
            case FLST_START =>
              Feed(postLen, st.(phase := FLST_WRITE, len := postLen, address := 0,
                                log := st.log + [Create(postLen)]), data)
            case FLST_WRITE =>
              var n := LenLeft(st);
              if |data| < n then st.(page := st.page + data, len := st.len - |data|)
              else Feed(postLen, Flush(st, data[..n]), data[n..])
            case FLST_DONE => st
    ensures st.phase == FLST_WRITE && |data| < LenLeft(st) ==>
              Feed(postLen, st.(page := st.page + data, len := st.len - |data|), []) ==
              st.(page := st.page + data, len := st.len - |data|)
    ensures Feed(postLen, st, []) == st
  {
    hide Flush;
  }

  lemma {:induction false} FeedPages(postLen: nat, st: State, rest: seq<bv8>)
    requires st.phase == FLST_WRITE && st.page == [] && st.len == |rest| && rest != []
    ensures Feed(postLen, st, rest).phase == FLST_DONE
    ensures Feed(postLen, st, rest).log == st.log + Pages(rest, st.address)
    decreases |rest|
  {
    hide Feed, Flush, Pages, OnePage;
    var n := LenLeft(st);
    var st' := Flush(st, rest[..n]);
    FeedUnfold(postLen, st, rest);
    FlushFresh(st, rest, n);
    PagesIs(rest, st.address, n);
    if n < |rest| {
      FeedPages(postLen, st', rest[n..]);
      LogAssoc(st.log, OnePage(st.address, rest[..n]), Pages(rest[n..], st'.address));
    } else {
      assert rest[n..] == [];
      FeedNothing(postLen, st');
    }
  }

  /** Flushing a page that holds nothing but the new data. */
  lemma FlushFresh(st: State, rest: seq<bv8>, n: nat)
    requires st.page == [] && st.len == |rest| && rest != [] && n == Min(PAGELEN, |rest|)
    ensures var st' := Flush(st, rest[..n]);
            && st'.page == [] && st'.len == |rest| - n && st'.address == st.address + PAGELEN
            && st'.phase == (if n == |rest| then FLST_DONE else FLST_WRITE)
            && st'.log == st.log + (OnePage(st.address, rest[..n]) + (if n == |rest| then [Rename] else []))
  {
    hide OnePage;
    assert [] + rest[..n] == rest[..n];
  }

  lemma PagesIs(rest: seq<bv8>, address: nat, n: nat)
    requires rest != [] && n == Min(PAGELEN, |rest|)
    ensures Pages(rest, address) ==
            OnePage(address, rest[..n]) + (if n == |rest| then [Rename] else Pages(rest[n..], address + PAGELEN))
  {
    hide OnePage;
  }

  lemma LogAssoc(a: seq<Op>, b: seq<Op>, c: seq<Op>)
    ensures a + (b + []) + c == a + (b + c)
  {
  }

  /** A body of postLen bytes, in whatever pieces, leads to exactly these calls. */
  lemma UploadLog(body: seq<bv8>, chunks: seq<seq<bv8>>)
    requires Concat(chunks) == body && body != []
    ensures FeedAll(|body|, Begin(), chunks).log == [Create(|body|)] + Pages(body, 0)
    ensures FeedAll(|body|, Begin(), chunks).phase == FLST_DONE
  {
    ChunkingIsImmaterial(|body|, Begin(), chunks);
    var st := Begin().(phase := FLST_WRITE, len := |body|, address := 0, log := Begin().log + [Create(|body|)]);
    assert Feed(|body|, Begin(), body) == Feed(|body|, st, body);
    assert st.log == [Create(|body|)];
    hide Feed;
    FeedPages(|body|, st, body);
  }

  /** An empty body, in however many empty buffers, creates no file. */
  lemma {:induction false} EmptyBody(chunks: seq<seq<bv8>>)
    requires Concat(chunks) == []
    ensures FeedAll(0, Begin(), chunks) == Begin()
  {
    ChunkingIsImmaterial(0, Begin(), chunks);
  }

  lemma {:induction false} RenamedOnce(rest: seq<bv8>, address: nat)
    requires rest != []
    ensures var log := Pages(rest, address);
            log != [] && log[|log| - 1] == Rename && forall i :: 0 <= i < |log| - 1 ==> log[i] != Rename
    decreases |rest|
  {
    var n := Min(PAGELEN, |rest|);
    if n < |rest| {
      RenamedOnce(rest[n..], address + PAGELEN);
    }
  }

  // ---------------------------------------------------------------------- flash

  /** NOR flash: an erase sets bits, a write can only clear them. */
  function Apply(mem: seq<bv8>, op: Op): (r: seq<bv8>)
    ensures |r| == |mem|
  {
    match op
    case Erase(addr, len) => seq(|mem|, i requires 0 <= i < |mem| => if addr <= i < addr + len then 0xff else mem[i])
    case Write(addr, data) =>
      seq(|mem|, i requires 0 <= i < |mem| => if addr <= i < addr + |data| then mem[i] & data[i - addr] else mem[i])
    case _ => mem
  }

  function ApplyAll(mem: seq<bv8>, log: seq<Op>): (r: seq<bv8>)
    ensures |r| == |mem|
    decreases |log|
  {
    if log == [] then mem else ApplyAll(Apply(mem, log[0]), log[1..])
  }

  ghost predicate Blank(mem: seq<bv8>, lo: nat, hi: nat) {
    forall i :: lo <= i < hi && i < |mem| ==> mem[i] == 0xff
  }

  /** Every page goes into flash that is blank when it is written. */
  ghost predicate WritesBlank(mem: seq<bv8>, log: seq<Op>)
    decreases |log|
  {
    log == [] || ((log[0].Write? ==> Blank(mem, log[0].addr, log[0].addr + |log[0].data|))
                  && WritesBlank(Apply(mem, log[0]), log[1..]))
  }

  /** Where the erased stretch around address ends. */
  function EraseEnd(address: nat): nat { (address + ERASE_SIZE - 1) / ERASE_SIZE * ERASE_SIZE }

  lemma {:induction false} ApplyPrefix(mem: seq<bv8>, a: seq<Op>, b: seq<Op>)
    ensures ApplyAll(mem, a + b) == ApplyAll(ApplyAll(mem, a), b)
    ensures WritesBlank(mem, a + b) <==> WritesBlank(mem, a) && WritesBlank(ApplyAll(mem, a), b)
    decreases |a|
  {
    hide Apply;
    if a == [] {
      assert a + b == b;
    } else {
      assert (a + b)[1..] == a[1..] + b;
      ApplyPrefix(Apply(mem, a[0]), a[1..], b);
    }
  }

  lemma OnePageWrites(mem: seq<bv8>, address: nat, data: seq<bv8>)
    requires address % PAGELEN == 0 && 0 < |data| <= PAGELEN && address + |data| <= |mem|
    requires Blank(mem, address, EraseEnd(address))
    ensures var r := ApplyAll(mem, OnePage(address, data));
            && WritesBlank(mem, OnePage(address, data))
            && r[address..address + |data|] == data && r[..address] == mem[..address]
            && Blank(r, address + PAGELEN, EraseEnd(address + PAGELEN))
  {
    hide ApplyAll, WritesBlank, OnePage, EraseEnd, Apply, Blank;
    var m1 := if address % ERASE_SIZE == 0 then Apply(mem, Erase(address, ERASE_SIZE)) else mem;
    OnePageSteps(mem, address, data);
    Stretch(address);
    ErasedHere(mem, address);
    BlankPart(m1, address, EraseEnd(address + PAGELEN), address + |data|);
    WriteBlank(m1, address, data);
    WriteKeepsBlank(m1, address, data, EraseEnd(address + PAGELEN));
  }

  lemma ErasedHere(mem: seq<bv8>, address: nat)
    requires address % PAGELEN == 0 && Blank(mem, address, EraseEnd(address)) && address <= |mem|
    ensures var m1 := if address % ERASE_SIZE == 0 then Apply(mem, Erase(address, ERASE_SIZE)) else mem;
            Blank(m1, address, EraseEnd(address + PAGELEN)) && m1[..address] == mem[..address]
  {
    Stretch(address);
    hide EraseEnd;
  }

  lemma BlankPart(mem: seq<bv8>, lo: nat, hi: nat, hi': nat)
    requires Blank(mem, lo, hi) && hi' <= hi
    ensures Blank(mem, lo, hi')
  {
  }

  lemma WriteBlank(mem: seq<bv8>, address: nat, data: seq<bv8>)
    requires Blank(mem, address, address + |data|) && address + |data| <= |mem|
    ensures var r := Apply(mem, Write(address, data));
            r[address..address + |data|] == data && r[..address] == mem[..address]
  {
    var r := Apply(mem, Write(address, data));
    forall i | address <= i < address + |data|
      ensures r[i] == data[i - address]
    {
      AllOnes(data[i - address]);
    }
  }

  lemma WriteKeepsBlank(mem: seq<bv8>, address: nat, data: seq<bv8>, hi: nat)
    requires Blank(mem, address, hi) && |data| <= PAGELEN
    ensures Blank(Apply(mem, Write(address, data)), address + PAGELEN, hi)
  {
  }

  lemma AllOnes(b: bv8)
    ensures 0xff & b == b
  {
  }

  lemma OnePageSteps(mem: seq<bv8>, address: nat, data: seq<bv8>)
    ensures var m1 := if address % ERASE_SIZE == 0 then Apply(mem, Erase(address, ERASE_SIZE)) else mem;
            && ApplyAll(mem, OnePage(address, data)) == Apply(m1, Write(address, data))
            && (WritesBlank(mem, OnePage(address, data)) <==> Blank(m1, address, address + |data|))
  {
    hide Apply, Blank;
    var e, w := [Erase(address, ERASE_SIZE)], [Write(address, data)];
    ApplyOne(mem, e[0]);
    ApplyOne(mem, w[0]);
    ApplyOne(Apply(mem, e[0]), w[0]);
    ApplyPrefix(mem, e, w);
    assert [] + w == w;
    hide ApplyAll, WritesBlank;
  }

  lemma ApplyOne(mem: seq<bv8>, op: Op)
    ensures ApplyAll(mem, [op]) == Apply(mem, op)
    ensures WritesBlank(mem, [op]) <==> (op.Write? ==> Blank(mem, op.addr, op.addr + |op.data|))
  {
    hide Apply, Blank;
    assert [op][1..] == [];
  }

  /** Two pages to an erased stretch. */
  lemma Stretch(address: nat)
    requires address % PAGELEN == 0
    ensures if address % ERASE_SIZE == 0 then
              EraseEnd(address) == address && EraseEnd(address + PAGELEN) == address + ERASE_SIZE
            else
              EraseEnd(address) == address + PAGELEN && EraseEnd(address + PAGELEN) == address + PAGELEN
  {
    var k := address / PAGELEN;
    assert address == PAGELEN * k;
    if k % 2 == 0 {
      assert address == ERASE_SIZE * (k / 2);
    } else {
      assert address == ERASE_SIZE * (k / 2) + PAGELEN;
    }
  }

  lemma {:induction false} PagesWrite(mem: seq<bv8>, rest: seq<bv8>, address: nat)
    requires rest != [] && address % PAGELEN == 0 && address + |rest| <= |mem|
    requires Blank(mem, address, EraseEnd(address))
    ensures var r := ApplyAll(mem, Pages(rest, address));
            && WritesBlank(mem, Pages(rest, address))
            && r[address..address + |rest|] == rest && r[..address] == mem[..address]
    decreases |rest|
  {
    hide Apply, ApplyAll, WritesBlank, Blank, EraseEnd;
    var n := Min(PAGELEN, |rest|);
    var page, m1 := OnePage(address, rest[..n]), ApplyAll(mem, OnePage(address, rest[..n]));
    OnePageWrites(mem, address, rest[..n]);
    var tail := if n == |rest| then [Rename] else Pages(rest[n..], address + PAGELEN);
    assert Pages(rest, address) == page + tail;
    ApplyPrefix(mem, page, tail);
    if n == |rest| {
      RenameOnly(m1);
    } else {
      PagesWrite(m1, rest[n..], address + PAGELEN);
      Join(ApplyAll(m1, tail), m1, rest, address, n);
    }
  }

  lemma RenameOnly(mem: seq<bv8>)
    ensures ApplyAll(mem, [Rename]) == mem && WritesBlank(mem, [Rename])
  {
    assert [Rename][1..] == [];
  }

  lemma Join(r: seq<bv8>, m1: seq<bv8>, rest: seq<bv8>, address: nat, n: nat)
    requires n <= |rest| && address + |rest| <= |r| == |m1| && n == PAGELEN
    requires r[address + n..address + |rest|] == rest[n..] && r[..address + n] == m1[..address + n]
    requires m1[address..address + n] == rest[..n]
    ensures r[address..address + |rest|] == rest && r[..address] == m1[..address]
  {
    assert r[address..address + n] == r[..address + n][address..];
    assert m1[address..address + n] == m1[..address + n][address..];
    assert r[address..address + |rest|] == r[address..address + n] + r[address + n..address + |rest|];
    assert r[..address] == r[..address + n][..address];
    assert m1[..address] == m1[..address + n][..address];
  }

  /** The upload: whatever the flash held and however the body was split, the
      file begins with the body, every page was written into erased flash, and
      the file got its name once, after the last page. */
  lemma UploadIsExact(body: seq<bv8>, chunks: seq<seq<bv8>>, mem: seq<bv8>)
    requires Concat(chunks) == body && body != [] && |body| <= |mem|
    ensures var log := FeedAll(|body|, Begin(), chunks).log;
            && ApplyAll(mem, log)[..|body|] == body && WritesBlank(mem, log)
            && log != [] && log[|log| - 1] == Rename && forall i :: 0 <= i < |log| - 1 ==> log[i] != Rename
  {
    hide Apply, Pages;
    var log := [Create(|body|)] + Pages(body, 0);
    UploadLog(body, chunks);
    RenamedOnce(body, 0);
    ApplyPrefix(mem, [Create(|body|)], Pages(body, 0));
    CreateOnly(mem, |body|);
    PagesWrite(mem, body, 0);
    assert ApplyAll(mem, log)[0..|body|] == ApplyAll(mem, log)[..|body|];
  }

  lemma CreateOnly(mem: seq<bv8>, n: nat)
    ensures ApplyAll(mem, [Create(n)]) == mem && WritesBlank(mem, [Create(n)])
    ensures Blank(mem, 0, EraseEnd(0))
  {
    assert [Create(n)][1..] == [];
  }

  // ---------------------------------------------------------------------- class

  /** HTTPD_CGI_MORE, or HTTPD_CGI_DONE with a response. */
  datatype Reply = More | Done(success: bool)

  class UploadCgi {
    const postLen: nat
    var received: nat
    var phase: Phase
    const pageData: array<bv8>
    var pagePos: nat
    var address: nat
    var len: nat
    var calls: seq<Op>   // made to appfs so far

    ghost predicate Valid()
      reads this
    {
      pageData.Length == PAGELEN && pagePos < PAGELEN
    }

    ghost function View(): State
      requires Valid()
      reads this, pageData
    {
      State(phase, pageData[..pagePos], address, len, calls)
    }

    constructor (postLen: nat)
      ensures Valid() && View() == Begin() && this.postLen == postLen && received == 0 && fresh(pageData)
    {
      this.postLen, received, phase := postLen, 0, FLST_START;
      pageData := new bv8[PAGELEN](_ => 0);
      pagePos, address, len, calls := 0, 0, 0, [];
    }

    /** cgiUploadFile on the next buffer of the body. */
    method CgiUploadFile(buff: seq<bv8>) returns (reply: Reply)
      requires Valid()
      modifies this, pageData
      ensures Valid() && View() == Feed(postLen, old(View()), buff)
      ensures received == old(received) + |buff|
      ensures reply == if received == postLen then Done(phase == FLST_DONE) else More
    {
      hide Feed, Flush;
      received := received + |buff|;
      var data := buff;
      while data != []
        invariant Valid() && received == old(received) + |buff|
        invariant Feed(postLen, View(), data) == Feed(postLen, old(View()), buff)
        decreases |data|, Rank(phase)
      {
        FeedUnfold(postLen, View(), data);
        if phase == FLST_START {
          // appfsCreateFile
          calls := calls + [Create(postLen)];
          len, address, phase := postLen, 0, FLST_WRITE;
        } else if phase == FLST_WRITE {
          data := WriteSome(data);
        } else {
          // bogus bytes after the data
          data := [];
        }
      }
      FeedNothing(postLen, View());
      return if received == postLen then Done(phase == FLST_DONE) else More;
    }

    /** Copy bytes to the page buffer, and flash the page if it is full. */
    method WriteSome(data0: seq<bv8>) returns (data: seq<bv8>)
      requires Valid() && phase == FLST_WRITE && data0 != []
      modifies this, pageData
      ensures Valid() && received == old(received)
      ensures var st, n := old(View()), LenLeft(old(View()));
              if |data0| < n then data == [] && View() == st.(page := st.page + data0, len := st.len - |data0|)
              else data == data0[n..] && View() == Flush(st, data0[..n])
      ensures |data| < |data0| || phase == FLST_DONE
    {
      hide Flush;
      var lenLeft := PAGELEN - pagePos;
      if len < lenLeft {
        lenLeft := len;
      }
      if |data0| < lenLeft {
        CopyToPage(data0);
        pagePos := pagePos + |data0|;
        len := len - |data0|;
        return [];
      }
      FlushPage(data0[..lenLeft]);
      return data0[lenLeft..];
    }

    /** memcpy to the end of what the page buffer holds. */
    method CopyToPage(src: seq<bv8>)
      requires Valid() && pagePos + |src| <= PAGELEN
      modifies pageData
      ensures pageData[..pagePos + |src|] == old(pageData[..pagePos]) + src
    {
      var i := 0;
      while i < |src|
        invariant 0 <= i <= |src| && pageData[..pagePos + i] == old(pageData[..pagePos]) + src[..i]
      {
        pageData[pagePos + i] := src[i];
        assert pageData[..pagePos + (i + 1)] == pageData[..pagePos + i] + [src[i]];
        i := i + 1;
      }
      assert src[..|src|] == src;
    }

    /** Finish the page, erase a sector if one begins here, and write. */
    method FlushPage(rest: seq<bv8>)
      requires Valid() && phase == FLST_WRITE && pagePos + |rest| <= PAGELEN && |rest| <= len
      modifies this, pageData
      ensures Valid() && received == old(received) && View() == Flush(old(View()), rest)
      ensures phase == FLST_DONE <==> old(len) == |rest|
    {
      ghost var page := pageData[..pagePos];
      CopyToPage(rest);
      var filled := pagePos + |rest|;
      len := len - |rest|;
      if address % ERASE_SIZE == 0 {
        calls := calls + [Erase(address, ERASE_SIZE)];
      }
      calls := calls + [Write(address, pageData[..filled])];
      address := address + PAGELEN;
      pagePos := 0;
      if len == 0 {
        phase := FLST_DONE;
        calls := calls + [Rename];
      }
      assert pageData[..0] == [];
    }
  }
}
