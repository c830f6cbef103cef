/**
 Reading one file from a ZIP archive appended to a model file: the end-of-central-directory
 record is searched backwards from the end of the file, and all offsets are corrected by the
 length of whatever precedes the archive.
 */
module ZipTail {
  import opened Bytes
  import opened Options

  const EOCD_SIGNATURE: Word32 := 0x0605_4b50
  const CENTRAL_SIGNATURE: Word32 := 0x0201_4b50
  const EOCD_SIZE: nat := 22
  const MAX_COMMENT: nat := 65535
  const SEARCH_SIZE: nat := EOCD_SIZE + MAX_COMMENT
  const CENTRAL_SIZE: nat := 46
  const LOCAL_SIZE: nat := 30
  const STORED: int := 0
  const DEFLATED: int := 8

  /** zlib: compressed bytes and expected size to content, empty on failure. */
  type Inflate = (Block, int) -> Block

  // ----- reading -----

  /** `fseek` and `fread`: a position that is negative as a `long` fails, a short read fails. */
  function FRead(file: Block, pos: Word64, n: nat): Option<Block>
  {
    if pos >= TWO_63 then None
    else if n == 0 then Some([])
    else if pos + n <= |file| then Some(file[pos..pos + n])
    else None
  }

  /** The last position up to `i` that holds the signature. */
  function FindEocd(tail: Block, i: nat): (r: Option<nat>)
    requires i + 4 <= |tail|
    ensures r.Some? ==> r.value <= i && Get32(tail, r.value) == EOCD_SIGNATURE
    ensures forall k :: (if r.Some? then r.value + 1 else 0) <= k <= i ==> Get32(tail, k) != EOCD_SIGNATURE
  {
    if Get32(tail, i) == EOCD_SIGNATURE then Some(i)
    else if i == 0 then None
    else FindEocd(tail, i - 1)
  }

  /** The content of an entry, from the position of its local header. */
  function ReadEntry(file: Block, local: Word64, compression: int, size: nat, fullSize: int, inflate: Inflate): Block
  {
    match FRead(file, local, LOCAL_SIZE)
    case None => []
    case Some(header) =>
      match FRead(file, Wrap64(local + LOCAL_SIZE + Get16(header, 26) + Get16(header, 28)), size)
      case None => []
      case Some(data) =>
        if compression == STORED then data
        else if compression == DEFLATED then inflate(data, fullSize)
        else []
  }

  /** The content of the entry whose central record is at `pos`. */
  function Extract(file: Block, cd: Block, pos: nat, prefix: Word64, inflate: Inflate): Block
    requires pos + CENTRAL_SIZE <= |cd|
  {
    var compression, size, fullSize := Get16(cd, pos + 10), Get32(cd, pos + 20), Get32(cd, pos + 24);
    ReadEntry(file, Wrap64(Get32(cd, pos + 42) + prefix), compression, size, fullSize, inflate)
  }

  predicate NameMatches(cd: Block, pos: nat, name: Block)
    requires pos + CENTRAL_SIZE <= |cd|
  {
    && Get16(cd, pos + 28) == |name|
    && pos + CENTRAL_SIZE + |name| <= |cd|
    && cd[pos + CENTRAL_SIZE..pos + CENTRAL_SIZE + |name|] == name
  }

  function RecordSize(cd: Block, pos: nat): nat
    requires pos + CENTRAL_SIZE <= |cd|
  {
    CENTRAL_SIZE + Get16(cd, pos + 28) + Get16(cd, pos + 30) + Get16(cd, pos + 32)
  }

  /** The walk over the remaining `left` records from `pos` on. */
  function Walk(file: Block, cd: Block, prefix: Word64, name: Block, inflate: Inflate, pos: nat, left: nat): Block
    decreases left
  {
    if left == 0 || pos + CENTRAL_SIZE > |cd| || Get32(cd, pos) != CENTRAL_SIGNATURE then []
    else if NameMatches(cd, pos, name) then Extract(file, cd, pos, prefix, inflate)
    else Walk(file, cd, prefix, name, inflate, pos + RecordSize(cd, pos), left - 1)
  }

  function Tail(file: Block): Block
  {
    if |file| > SEARCH_SIZE then file[|file| - SEARCH_SIZE..] else file
  }

  function Lookup(file: Block, name: Block, inflate: Inflate): Block
    requires |file| < TWO_63
  {
    if |file| < EOCD_SIZE then []
    else
      var tail := Tail(file);
      match FindEocd(tail, |tail| - EOCD_SIZE)
      case None => []
      case Some(at) =>
        var cdSize, cdOffset := Get32(tail, at + 12), Get32(tail, at + 16);
        var cdPos := Wrap64(|file| - |tail| + at - cdSize);
        match FRead(file, cdPos, cdSize)
        case None => []
        case Some(cd) =>
          Walk(file, cd, Wrap64(cdPos - cdOffset), name, inflate, 0, Get16(tail, at + 10))
  }

  /** `edgefirst_zip_read_file`; the empty string stands for every failure. */
  method ZipReadFile(file: Block, name: Block, inflate: Inflate) returns (r: Block)
    requires |file| < TWO_63
    ensures r == Lookup(file, name, inflate)
  {
    hide FRead, Get16, Get32, FindEocd, Walk;
    if |file| < EOCD_SIZE {
      return [];
    }
    var tailSize := if |file| > SEARCH_SIZE then SEARCH_SIZE else |file|;
    var tailOffset := |file| - tailSize;
    var tail := file[tailOffset..];
    var found := ScanForEocd(tail);
    if found == None {
      return [];
    }
    var i := found.value;
    var numEntries, cdSize, cdOffset := Get16(tail, i + 10), Get32(tail, i + 12), Get32(tail, i + 16);
    var cdPos := Wrap64(tailOffset + i - cdSize);
    var prefix := Wrap64(cdPos - cdOffset);
    var directory := FRead(file, cdPos, cdSize);
    if directory == None {
      return [];
    }
    r := WalkDirectory(file, directory.value, prefix, name, inflate, numEntries);
  }

  /** The backward scan. */
  method ScanForEocd(tail: Block) returns (r: Option<nat>)
    requires |tail| >= EOCD_SIZE
    ensures r == FindEocd(tail, |tail| - EOCD_SIZE)
  {
    hide Get32;
    var i := |tail| - EOCD_SIZE;
    while true
      invariant 0 <= i <= |tail| - EOCD_SIZE
      invariant FindEocd(tail, i) == FindEocd(tail, |tail| - EOCD_SIZE)
      decreases i
    {
      if Get32(tail, i) == EOCD_SIGNATURE {
        return Some(i);
      }
      if i == 0 {
        return None;
      }
      i := i - 1;
    }
  }

  method WalkDirectory(file: Block, cd: Block, prefix: Word64, name: Block, inflate: Inflate, numEntries: nat)
    returns (r: Block)
    ensures r == Walk(file, cd, prefix, name, inflate, 0, numEntries)
  {
    hide Extract, NameMatches, RecordSize;
    var pos := 0;
    for e := 0 to numEntries
      invariant pos >= 0
      invariant Walk(file, cd, prefix, name, inflate, pos, numEntries - e)
             == Walk(file, cd, prefix, name, inflate, 0, numEntries)
    {
      if pos + CENTRAL_SIZE > |cd| {
        return [];
      }
      if Get32(cd, pos) != CENTRAL_SIGNATURE {
        return [];
      }
      if NameMatches(cd, pos, name) {
        return Extract(file, cd, pos, prefix, inflate);
      }
      pos := pos + RecordSize(cd, pos);
    }
    r := [];
  }

  // ----- well-formed archives (sections 4.3.7, 4.3.12 and 4.3.16 of the ZIP APPNOTE) -----

  /**
   An archived file. The central record is 46 fixed bytes, the name, an extra field and a comment;
   the local header is 30 fixed bytes, a name and an extra field of its own, and the data.
   */
  datatype Entry = Entry(name: Block, compression: int, data: Block, fullSize: Word32, localOffset: nat,
                         central: Block, extra: Block, comment: Block,
                         local: Block, localName: Block, localExtra: Block) {
    function Record(): Block
    {
      central + name + extra + comment
    }

    function Local(): Block
    {
      local + localName + localExtra + data
    }
  }

  /** The fields of the central record describe its parts and the entry. */
  predicate RecordOk(e: Entry)
  {
    var r := e.central;
    && |r| == CENTRAL_SIZE
    && Get32(r, 0) == CENTRAL_SIGNATURE
    && Get16(r, 10) == e.compression
    && Get32(r, 20) == |e.data|
    && Get32(r, 24) == e.fullSize
    && Get16(r, 28) == |e.name|
    && Get16(r, 30) == |e.extra|
    && Get16(r, 32) == |e.comment|
    && Get32(r, 42) == e.localOffset
  }

  /** The local header stands in the body where the central record says, and describes its own parts. */
  predicate LocalOk(body: Block, e: Entry)
  {
    && |e.local| == LOCAL_SIZE
    && Get16(e.local, 26) == |e.localName|
    && Get16(e.local, 28) == |e.localExtra|
    && e.localOffset + |e.Local()| <= |body|
    && body[e.localOffset..e.localOffset + |e.Local()|] == e.Local()
  }

  function Records(es: seq<Entry>): (r: seq<Block>)
    ensures |r| == |es|
    ensures forall k :: 0 <= k < |es| ==> r[k] == es[k].Record()
  {
    seq(|es|, k requires 0 <= k < |es| => es[k].Record())
  }

  /** Entries in any order and with any gaps, the directory, the end record and its comment. */
  datatype Archive = Archive(body: Block, entries: seq<Entry>, eocd: Block, comment: Block) {
    function Directory(): Block
    {
      Flatten(Records(entries))
    }

    function End(): Block
    {
      eocd + comment
    }

    function Contents(): Block
    {
      body + Directory() + End()
    }

    predicate WellFormed()
    {
      && (forall k :: 0 <= k < |entries| ==> RecordOk(entries[k]) && LocalOk(body, entries[k]))
      && |eocd| == EOCD_SIZE && |comment| <= MAX_COMMENT
      && Get32(eocd, 0) == EOCD_SIGNATURE
      && Get16(eocd, 10) == |entries|
      && Get32(eocd, 12) == |Directory()|
      && Get32(eocd, 16) == |body|
    }

    /** The signature does not occur again where the search looks before it meets the record. */
    predicate SignatureIsLast()
    {
      forall i :: 0 < i <= |comment| && i + 4 <= |End()| ==> Get32(End(), i) != EOCD_SIGNATURE
    }
  }

  /** The content an entry stands for. */
  function Content(e: Entry, inflate: Inflate): Block
  {
    if e.compression == STORED then e.data
    else if e.compression == DEFLATED then inflate(e.data, e.fullSize)
    else []
  }

  /** Method 0 is stored, method 8 deflated; nothing else is understood. */
  lemma ContentMeaning(e: Entry, inflate: Inflate)
    ensures e.compression == 0 ==> Content(e, inflate) == e.data
    ensures e.compression == 8 ==> Content(e, inflate) == inflate(e.data, e.fullSize)
    ensures e.compression != 0 && e.compression != 8 ==> Content(e, inflate) == []
  {
  }

  /** The content of the first entry of the given name. */
  function Expected(es: seq<Entry>, name: Block, inflate: Inflate): Block
  {
    if es == [] then []
    else if es[0].name == name then Content(es[0], inflate)
    else Expected(es[1..], name, inflate)
  }

  // ----- reading a well-formed archive -----

  lemma Get16At(m: Block, r: Block, pos: nat, k: nat)
    requires pos + |r| <= |m| && m[pos..pos + |r|] == r && k + 2 <= |r|
    ensures Get16(m, pos + k) == Get16(r, k)
  {
  }

  lemma Get32At(m: Block, r: Block, pos: nat, k: nat)
    requires pos + |r| <= |m| && m[pos..pos + |r|] == r && k + 4 <= |r|
    ensures Get32(m, pos + k) == Get32(r, k)
  {
  }

  /** The tail window reaches the end record for every legal comment length. */
  lemma TailHoldsEnd(file: Block, front: Block, end: Block)
    requires file == front + end && EOCD_SIZE <= |end| <= SEARCH_SIZE
    ensures var tail := Tail(file); var at := |tail| - |end|;
            && at >= 0 && tail[at..] == end
            && |file| - |tail| + at == |front|
  {
  }

  /** The window is as long as an end record with the longest legal comment, or the whole file. */
  lemma TailLength(file: Block)
    ensures |Tail(file)| == if |file| > 22 + 65535 then 22 + 65535 else |file|
    ensures Tail(file) == file[|file| - |Tail(file)|..]
  {
  }

  /** The backward search finds the end record exactly when nothing behind it looks like one. */
  lemma FindsEndIff(tail: Block, end: Block, at: nat)
    requires at + |end| == |tail| && tail[at..] == end && |end| >= EOCD_SIZE
    requires Get32(end, 0) == EOCD_SIGNATURE
    ensures FindEocd(tail, |tail| - EOCD_SIZE) == Some(at)
            <==> forall i :: 0 < i <= |end| - EOCD_SIZE ==> Get32(end, i) != EOCD_SIGNATURE
  {
    hide Get32, FindEocd;
    assert tail[at..] == tail[at..at + |end|];
    Get32At(tail, end, at, 0);
    forall i | 0 < i <= |end| - EOCD_SIZE ensures Get32(end, i) == Get32(tail, at + i) {
      Get32At(tail, end, at, i);
    }
    forall k | at < k <= |tail| - EOCD_SIZE ensures Get32(tail, k) == Get32(end, k - at) {
      Get32At(tail, end, at, k - at);
    }
  }

  /** The fields of a record are those at its place in the directory. */
  lemma RecordFields(cd: Block, pos: nat, e: Entry)
    requires RecordOk(e) && pos + |e.Record()| <= |cd| && cd[pos..pos + |e.Record()|] == e.Record()
    ensures Get32(cd, pos) == CENTRAL_SIGNATURE
    ensures Get16(cd, pos + 10) == e.compression
    ensures Get32(cd, pos + 20) == |e.data| && Get32(cd, pos + 24) == e.fullSize
    ensures Get16(cd, pos + 28) == |e.name| && Get32(cd, pos + 42) == e.localOffset
    ensures RecordSize(cd, pos) == |e.Record()|
  {
    hide Get16, Get32;
    var r := e.central;
    SliceOfSlice(cd, pos, pos + |e.Record()|, 0, CENTRAL_SIZE);
    assert e.Record()[0..CENTRAL_SIZE] == r;
    Get32At(cd, r, pos, 0);
    Get16At(cd, r, pos, 10);
    Get32At(cd, r, pos, 20);
    Get32At(cd, r, pos, 24);
    Get16At(cd, r, pos, 28);
    Get16At(cd, r, pos, 30);
    Get16At(cd, r, pos, 32);
    Get32At(cd, r, pos, 42);
  }

  lemma NameAt(cd: Block, pos: nat, e: Entry, name: Block)
    requires RecordOk(e) && pos + |e.Record()| <= |cd| && cd[pos..pos + |e.Record()|] == e.Record()
    ensures NameMatches(cd, pos, name) <==> e.name == name
  {
    hide Get16, Get32;
    RecordFields(cd, pos, e);
    if |name| == |e.name| {
      SliceOfSlice(cd, pos, pos + |e.Record()|, CENTRAL_SIZE, CENTRAL_SIZE + |name|);
      assert e.Record()[CENTRAL_SIZE..CENTRAL_SIZE + |name|] == e.name;
    }
  }

  /** Bytes of the archive body keep their order behind the prefix. */
  lemma ShiftedSlice(prefix: Block, body: Block, rest: Block, lo: nat, n: nat)
    requires lo + n <= |body|
    ensures var file := prefix + (body + rest);
            |prefix| + lo + n <= |file| && file[|prefix| + lo..|prefix| + lo + n] == body[lo..lo + n]
  {
  }

  lemma ShiftedRead(prefix: Block, body: Block, rest: Block, lo: nat, n: nat)
    requires lo + n <= |body| && |prefix + (body + rest)| < TWO_63
    ensures FRead(prefix + (body + rest), |prefix| + lo, n) == Some(body[lo..lo + n])
  {
    ShiftedSlice(prefix, body, rest, lo, n);
    if n == 0 {
      assert body[lo..lo + n] == [];
    }
  }

  lemma LocalData(body: Block, e: Entry) returns (start: nat)
    requires LocalOk(body, e)
    ensures e.localOffset + LOCAL_SIZE <= |body|
    ensures var header := body[e.localOffset..e.localOffset + LOCAL_SIZE];
            start == e.localOffset + LOCAL_SIZE + Get16(header, 26) + Get16(header, 28)
    ensures start + |e.data| <= |body| && body[start..start + |e.data|] == e.data
  {
    hide Get16;
    var at, all := e.localOffset, e.Local();
    SliceOfSlice(body, at, at + |all|, 0, LOCAL_SIZE);
    assert all[0..LOCAL_SIZE] == e.local;
    var inner := LOCAL_SIZE + |e.localName| + |e.localExtra|;
    SliceOfSlice(body, at, at + |all|, inner, inner + |e.data|);
    assert all[inner..inner + |e.data|] == e.data;
    start := at + inner;
  }

  /** The entry's data is found behind its local header, shifted by the prefix. */
  lemma ReadsData(prefix: Block, body: Block, rest: Block, e: Entry, inflate: Inflate)
    requires |prefix + (body + rest)| < TWO_63 && LocalOk(body, e)
    ensures |prefix| + e.localOffset < TWO_64
    ensures ReadEntry(prefix + (body + rest), |prefix| + e.localOffset, e.compression, |e.data|, e.fullSize, inflate)
            == Content(e, inflate)
  {
    hide Get16, LocalOk, FRead, Wrap64;
    var file := prefix + (body + rest);
    var start := LocalData(body, e);
    ShiftedRead(prefix, body, rest, e.localOffset, LOCAL_SIZE);
    ShiftedRead(prefix, body, rest, start, |e.data|);
    WrapSmall(|prefix| + start);
    var header := body[e.localOffset..e.localOffset + LOCAL_SIZE];
    assert |prefix| + e.localOffset + LOCAL_SIZE + Get16(header, 26) + Get16(header, 28) == |prefix| + start;
  }

  lemma ExtractsData(prefix: Block, body: Block, rest: Block, cd: Block, pos: nat, e: Entry, inflate: Inflate)
    requires |prefix + (body + rest)| < TWO_63
    requires RecordOk(e) && LocalOk(body, e)
    requires pos + |e.Record()| <= |cd| && cd[pos..pos + |e.Record()|] == e.Record()
    ensures pos + CENTRAL_SIZE <= |cd|
    ensures Extract(prefix + (body + rest), cd, pos, |prefix|, inflate) == Content(e, inflate)
  {
    RecordLongEnough(e);
    hide Get16, Get32, RecordOk, LocalOk, ReadEntry, Wrap64, Content;
    RecordFields(cd, pos, e);
    ReadsData(prefix, body, rest, e, inflate);
    WrapSmall(e.localOffset + |prefix|);
  }

  /** One step of the walk, at the place of a record. */
  lemma WalkStep(prefix: Block, body: Block, rest: Block, cd: Block, pos: nat, e: Entry,
                 name: Block, inflate: Inflate, left: nat)
    requires |prefix + (body + rest)| < TWO_63 && left > 0
    requires RecordOk(e) && LocalOk(body, e)
    requires pos + |e.Record()| <= |cd| && cd[pos..pos + |e.Record()|] == e.Record()
    ensures var file := prefix + (body + rest);
            Walk(file, cd, |prefix|, name, inflate, pos, left)
            == if e.name == name then Content(e, inflate)
               else Walk(file, cd, |prefix|, name, inflate, pos + |e.Record()|, left - 1)
  {
    RecordLongEnough(e);
    hide Get16, Get32, RecordOk, LocalOk, Extract, NameMatches, RecordSize;
    RecordFields(cd, pos, e);
    NameAt(cd, pos, e, name);
    ExtractsData(prefix, body, rest, cd, pos, e, inflate);
  }

  lemma {:induction false} WalkFinds(prefix: Block, a: Archive, rest: Block, name: Block, inflate: Inflate, k: nat)
    requires forall i :: 0 <= i < |a.entries| ==> RecordOk(a.entries[i]) && LocalOk(a.body, a.entries[i])
    requires |prefix + (a.body + rest)| < TWO_63 && k <= |a.entries|
    ensures Walk(prefix + (a.body + rest), a.Directory(), |prefix|, name, inflate,
                 TotalSize(Records(a.entries)[..k]), |a.entries| - k)
            == Expected(a.entries[k..], name, inflate)
    decreases |a.entries| - k
  {
    hide Flatten, TotalSize, RecordOk, LocalOk, Extract, NameMatches, RecordSize, Content;
    if k < |a.entries| {
      var e, rs := a.entries[k], Records(a.entries);
      WalkFinds(prefix, a, rest, name, inflate, k + 1);
      FlattenSlice(rs, k);
      TotalSizeStep(rs, k);
      WalkStep(prefix, a.body, rest, a.Directory(), TotalSize(rs[..k]), e, name, inflate, |a.entries| - k);
      assert a.entries[k..][1..] == a.entries[k + 1..] && a.entries[k..][0] == e;
    }
  }

  lemma RecordLongEnough(e: Entry)
    requires RecordOk(e)
    ensures |e.Record()| >= CENTRAL_SIZE
  {
  }

  /**
   For every legal comment the search window reaches the end record, and the record is the one
   found exactly when its signature does not occur again behind it.
   */
  lemma EndFoundIff(prefix: Block, a: Archive)
    requires a.WellFormed()
    ensures var tail := Tail(prefix + a.Contents());
            && |tail| >= |a.End()| >= EOCD_SIZE
            && (FindEocd(tail, |tail| - EOCD_SIZE) == Some(|tail| - |a.End()|) <==> a.SignatureIsLast())
  {
    hide Get16, Get32, FindEocd, Flatten, Tail;
    var cd, end := a.Directory(), a.End();
    var file := prefix + a.Contents();
    assert file == (prefix + a.body + cd) + end;
    TailHoldsEnd(file, prefix + a.body + cd, end);
    EndSignature(a);
    FindsEndIff(Tail(file), end, |Tail(file)| - |end|);
  }

  lemma EndSignature(a: Archive)
    requires a.WellFormed()
    ensures |a.End()| == EOCD_SIZE + |a.comment| && Get32(a.End(), 0) == EOCD_SIGNATURE
  {
  }

  /** The end record of an archive without entries. */
  function EmptyEnd(): (b: Block)
    ensures |b| == EOCD_SIZE
  {
    [0x50, 0x4b, 0x05, 0x06, 0, 0, 0, 0, 0, 0, 0, 0, 0, 0, 0, 0, 0, 0, 0, 0, 0, 0]
  }

  /** Whatever precedes it, an end record of no entries at the very end hides everything. */
  lemma EmptyEndHides(front: Block, name: Block, inflate: Inflate)
    requires |front + EmptyEnd()| < TWO_63
    ensures Lookup(front + EmptyEnd(), name, inflate) == []
  {
    hide EmptyEnd, Get16, Get32, Tail, Walk;
    var file := front + EmptyEnd();
    EmptyEndFields();
    TailHoldsEnd(file, front, EmptyEnd());
    TailFits(file);
    var tail := Tail(file);
    var at := |tail| - EOCD_SIZE;
    Get32At(tail, EmptyEnd(), at, 0);
    Get32At(tail, EmptyEnd(), at, 12);
    Get16At(tail, EmptyEnd(), at, 10);
    assert FindEocd(tail, at) == Some(at);
    NothingToWalk(file, Wrap64(Wrap64(|file| - EOCD_SIZE) - Get32(tail, at + 16)), name, inflate);
  }

  lemma EmptyEndFields()
    ensures var b := EmptyEnd(); Get32(b, 0) == EOCD_SIGNATURE && Get16(b, 10) == 0 && Get32(b, 12) == 0
  {
  }

  lemma TailFits(file: Block)
    ensures |Tail(file)| <= |file| && (|file| >= EOCD_SIZE ==> |Tail(file)| >= EOCD_SIZE)
  {
  }

  lemma NothingToWalk(file: Block, prefix: Word64, name: Block, inflate: Inflate)
    ensures Walk(file, [], prefix, name, inflate, 0, 0) == []
  {
  }

  function Gap(n: nat): (b: Block)
    ensures |b| == n && forall k :: 0 <= k < n ==> b[k] == 0
  {
    seq(n, _ => 0)
  }

  /** A stored file named "a" with one byte of content. */
  function OneEntry(): Entry
  {
    Entry([97], STORED, [42], 1, 0,
          [0x50, 0x4b, 0x01, 0x02] + Gap(16) + [1, 0, 0, 0, 1, 0, 0, 0, 1, 0] + Gap(16), [], [],
          [0x50, 0x4b, 0x03, 0x04] + Gap(22) + [1, 0, 0, 0], [97], [])
  }

  /** An archive of this file, whose comment is an end record of no entries. */
  function HiddenArchive(): Archive
  {
    Archive(OneEntry().Local(),
            [OneEntry()],
            [0x50, 0x4b, 0x05, 0x06] + Gap(6) + [1, 0, 47, 0, 0, 0, 32, 0, 0, 0, 22, 0],
            EmptyEnd())
  }

  lemma OneEntryOk(body: Block)
    requires body == OneEntry().Local()
    ensures RecordOk(OneEntry()) && LocalOk(body, OneEntry()) && |OneEntry().Record()| == 47 && |body| == 32
  {
    hide Gap;
    assert body[0..|body|] == body;
  }

  lemma HiddenArchiveWellFormed()
    ensures HiddenArchive().WellFormed() && |HiddenArchive().Contents()| < TWO_63
  {
    hide RecordOk, LocalOk, OneEntry, Gap;
    var a := HiddenArchive();
    OneEntryOk(a.body);
    assert Records(a.entries) == [OneEntry().Record()];
    FlattenOne(OneEntry().Record());
  }

  /** The file is in the archive, but the lookup finds nothing. */
  lemma EndMissedWitness(inflate: Inflate)
    ensures var a := HiddenArchive();
            && a.WellFormed() && !a.SignatureIsLast() && |a.Contents()| < TWO_63
            && Expected(a.entries, [97], inflate) == [42] && Lookup(a.Contents(), [97], inflate) == []
  {
    hide Lookup, Flatten, RecordOk, LocalOk;
    var a := HiddenArchive();
    HiddenArchiveWellFormed();
    assert Get32(a.End(), EOCD_SIZE) == Get32(EmptyEnd(), 0) == EOCD_SIGNATURE;
    var front := a.body + a.Directory() + a.eocd;
    assert a.Contents() == front + EmptyEnd();
    EmptyEndHides(front, [97], inflate);
  }

  /**
   Prefix independence: appended to any bytes, a well-formed archive answers every lookup with
   the content of the first entry of that name, and with nothing if there is none.
   */
  lemma LookupIgnoresPrefix(prefix: Block, a: Archive, name: Block, inflate: Inflate)
    requires a.WellFormed() && a.SignatureIsLast()
    requires |prefix + a.Contents()| < TWO_63
    ensures Lookup(prefix + a.Contents(), name, inflate) == Expected(a.entries, name, inflate)
  {
    hide Get16, Get32, Walk, FindEocd, Flatten, FRead, Tail, Expected, RecordOk, LocalOk;
    var cd, end := a.Directory(), a.End();
    var rest := cd + end;
    var file := prefix + (a.body + rest);
    assert prefix + a.Contents() == file;
    var tail := Tail(file);
    assert file == (prefix + a.body + cd) + end;
    TailHoldsEnd(file, prefix + a.body + cd, end);
    var at := |tail| - |end|;
    EndFields(a);
    FindsEndIff(tail, end, at);
    assert tail[at..] == tail[at..at + |end|];
    Get16At(tail, end, at, 10);
    Get32At(tail, end, at, 12);
    Get32At(tail, end, at, 16);
    DirectoryRead(prefix, a.body, cd, end);
    WalkFinds(prefix, a, rest, name, inflate, 0);
    assert Records(a.entries)[..0] == [] && a.entries[0..] == a.entries;
  }

  lemma DirectoryRead(prefix: Block, body: Block, cd: Block, end: Block)
    requires |prefix + (body + (cd + end))| < TWO_63
    ensures FRead(prefix + (body + (cd + end)), |prefix| + |body|, |cd|) == Some(cd)
  {
    hide FRead;
    ShiftedRead(prefix + body, cd, end, 0, |cd|);
    assert prefix + body + (cd + end) == prefix + (body + (cd + end));
    assert cd[0..|cd|] == cd;
  }

  lemma EndFields(a: Archive)
    requires a.WellFormed() && a.SignatureIsLast()
    ensures var end := a.End();
            && |end| == EOCD_SIZE + |a.comment|
            && Get32(end, 0) == EOCD_SIGNATURE
            && Get16(end, 10) == |a.entries|
            && Get32(end, 12) == |a.Directory()|
            && Get32(end, 16) == |a.body|
            && forall i :: 0 < i <= |end| - EOCD_SIZE ==> Get32(end, i) != EOCD_SIGNATURE
  {
  }
}
