/** pax headers: a ustar block, and an extended list for what does not fit it. */
module PaxHeader {
  import opened Common
  import opened CString
  import opened Numerals
  import opened PaxErrors
  import opened PaxUtil
  import opened PaxRecord

  datatype Field =
    | Name | Mode | Uid | Gid | Size | Mtime | Chksum | Type | Linkname | Magic | Version
    | Uname | Gname | Devmajor | Devminor | Prefix
    | Atime  // lives in extended data only

  function Width(f: Field): nat {
    match f
    case Name | Linkname => 100
    case Mode | Uid | Gid | Chksum | Devmajor | Devminor => 8
    case Size | Mtime => 12
    case Type => 1
    case Magic => 6
    case Version => 2
    case Uname | Gname => 32
    case Prefix => 155
    case Atime => 0
  }

  /** The extended header keyword that stands for a field, if there is one. */
  function Keyword(f: Field): Option<string> {
    match f
    case Name => Some("path")
    case Linkname => Some("linkpath")
    case Uname => Some("uname")
    case Gname => Some("gname")
    case Uid => Some("uid")
    case Gid => Some("gid")
    case Size => Some("size")
    case Mtime => Some("mtime")
    case Atime => Some("atime")
    case _ => None
  }

  lemma KeywordsDiffer(f: Field, g: Field)
    requires f != g && Keyword(f).Some?
    ensures Keyword(f) != Keyword(g)
  {
    assert "path"[0] != "linkpath"[0] && "size"[0] != "mtime"[0] && "uname"[0] != "gname"[0];
    assert "uid"[1] != "uname"[1] && "gid"[1] != "gname"[1];
  }

  type Block = map<Field, string>

  /** The header, its extended entries newest first. */
  datatype Hdr = Hdr(blk: Block, entries: seq<Entry>)

  predicate ValidBlock(b: Block) {
    forall f: Field :: f in b && |b[f]| == Width(f)
  }

  /** ph_create_hdr: zeros, but for the magic and the version. */
  function NewHdr(): (h: Hdr)
    ensures ValidBlock(h.blk)
  {
    Hdr(map f: Field | true :: if f.Magic? then "ustar\0" else if f.Version? then "00" else Padding(Width(f)), [])
  }

  // ------------------------------------------------------------ entries

  function Without(entries: seq<Entry>, keyword: string): seq<Entry> {
    if entries == [] then []
    else
      (if entries[0].keyword == keyword then [] else [entries[0]]) + Without(entries[1..], keyword)
  }

  function Newest(entries: seq<Entry>, keyword: string): Option<Origin> {
    if entries == [] then None
    else if entries[0].keyword == keyword then Some(entries[0].origin)
    else Newest(entries[1..], keyword)
  }

  lemma {:induction false} NewestWithout(entries: seq<Entry>, keyword: string, other: string)
    ensures Newest(Without(entries, keyword), other)
            == if other == keyword then None else Newest(entries, other)
  {
    if entries != [] {
      var rest := Without(entries[1..], keyword);
      NewestWithout(entries[1..], keyword, other);
      assert ([entries[0]] + rest)[1..] == rest && [] + rest == rest;
    }
  }

  lemma {:induction false} LinesInTurn(newer: seq<Entry>, older: seq<Entry>, all: seq<Entry>)
    requires all == newer + older && PrintableEntries(all) && PrintableEntries(newer) && PrintableEntries(older)
    ensures EntryLines(all) == EntryLines(older) + EntryLines(newer)
  {
    if newer == [] {
      assert all == older;
    } else {
      var e, rest := newer[0], newer[1..];
      assert all[0] == e && all[1..] == rest + older;
      LinesInTurn(rest, older, all[1..]);
      Regrouped(EntryLines(older), EntryLines(rest), LineOf(e.keyword, e.origin));
    }
  }

  lemma Regrouped(a: string, b: string, c: string)
    ensures (a + b) + c == a + (b + c)
  {}

  lemma {:induction false} NewestIsBehind(newer: seq<Entry>, e: Entry, older: seq<Entry>)
    requires forall d <- newer :: d.keyword != e.keyword
    ensures Newest(newer + ([e] + older), e.keyword) == Some(e.origin)
  {
    if newer == [] {
      assert newer + ([e] + older) == [e] + older;
    } else {
      NewestIsBehind(newer[1..], e, older);
      assert (newer + ([e] + older))[1..] == newer[1..] + ([e] + older);
    }
  }

  /** In a run of lines, the last one with a keyword is the one that counts. */
  lemma LastLineWins(front: seq<Entry>, e: Entry, back: seq<Entry>, tail: string)
    requires AllRecords(front) && AllRecords([e]) && AllRecords(back)
    requires forall d <- back :: d.keyword != e.keyword
    requires tail == "" || tail[0] == '\0'
    ensures PrintableEntries(front) && PrintableEntries(back)
    ensures var buf := EntryLines(front) + e.origin.line + EntryLines(back) + tail;
            ParseRun(buf, []).0 == PX_SUCCESS && Newest(ParseRun(buf, []).1, e.keyword) == Some(e.origin)
  {
    assert e in [e];
    assert PrintableEntries([e]) && PrintableEntries(front) && PrintableEntries(back);
    var entries := back + ([e] + front);
    LinesInTurn([e], front, [e] + front);
    LinesInTurn(back, [e] + front, entries);
    NewestIsBehind(back, e, front);
    assert EntryLines([e]) == e.origin.line;
    var buf := EntryLines(front) + e.origin.line + EntryLines(back) + tail;
    assert EntryLines(entries) == EntryLines(front) + e.origin.line + EntryLines(back);
    assert IsRun(buf, entries);
    RunIff(buf, entries);
  }

  // ------------------------------------------------------------ the setters

  // memset, then strlcpy
  function Copied(src: string, width: nat): (field: string)
    requires width > 0
    ensures |field| == width
  {
    if |src| < width then src + Padding(width - |src|) else src[..width - 1] + Padding(1)
  }

  // "%.*llo" with all but one place
  function OctalText(n: nat, width: nat): string {
    var s := Numeral(Octal, n);
    (if |s| < width - 1 then Zeros(width - 1 - |s|) else "") + s
  }

  // The octal text fits, with its NUL.
  predicate Fits(n: nat, width: nat) {
    |OctalText(n, width)| < width
  }

  lemma FitsIff(n: nat, width: nat)
    requires width > 1
    ensures Fits(n, width) <==> n < Pow(Octal, width - 1)
  {
    NumeralLength(Octal, n, width - 1);
  }

  lemma OctalPowers()
    ensures Pow(Octal, 7) == 0x20_0000 && Pow(Octal, 11) == 0x2_0000_0000
  {
    assert Pow(Octal, 4) == 0x1000;
    assert Pow(Octal, 8) == 0x100_0000;
  }

  /** Eight bytes hold seven octal digits, twelve bytes eleven. */
  lemma FieldCapacities(n: nat)
    ensures Fits(n, 8) <==> n < 0x20_0000
    ensures Fits(n, 12) <==> n < 0x2_0000_0000
  {
    OctalPowers();
    FitsIff(n, 8);
    FitsIff(n, 12);
  }

  /** What can be stored in a field. */
  datatype Setting =
    | SetString(src: string)
    | SetUnsigned(n: U64)
    | SetSigned(i: I64)
    | SetTime(sec: I64, nsec: nat)
    | SetType(c: char)

  /** Where a setting goes: into the block as text, or into extended data. */
  datatype Place = InBlock(field: string) | Extended(v: PaxValue)

  /** The decision of _ph_set_string, _ph_set_unsigned, _ph_set_signed, _ph_set_time and
      ph_set_type for a field of the given width; 0 stands for no field. */
  function PlaceFor(w: nat, s: Setting): Place {
    match s
    case SetString(src) => if w == 0 || |src| > w then Extended(Text(src)) else InBlock(Copied(src, w))
    case SetUnsigned(n) => if w == 0 || !Fits(n, w) then Extended(U64(n)) else InBlock(OctalText(n, w) + "\0")
    case SetSigned(i) =>
      if w == 0 || i < 0 || !Fits(i, w) then Extended(I64(i)) else InBlock(OctalText(i, w) + "\0")
    case SetTime(sec, nsec) =>
      if w == 0 || nsec != 0 || sec < 0 || !Fits(sec, w) then Extended(Time(sec, nsec))
      else InBlock(OctalText(sec, w) + "\0")
    case SetType(c) => InBlock([c])
  }

  /** When a string goes to extended data: if it is longer than its field. */
  lemma StringSpillsIff(src: string)
    ensures forall f <- {Name, Linkname} :: PlaceFor(Width(f), SetString(src)).Extended? <==> |src| > 100
    ensures forall f <- {Uname, Gname} :: PlaceFor(Width(f), SetString(src)).Extended? <==> |src| > 32
  {}

  /** When a number goes there: if it is negative or needs more than seven or eleven octal
      digits. */
  lemma NumberSpillsIff(f: Field, n: U64, i: I64)
    ensures f in {Mode, Uid, Gid, Devmajor, Devminor} ==>
              && (PlaceFor(Width(f), SetUnsigned(n)).Extended? <==> n >= 0x20_0000)
              && (PlaceFor(Width(f), SetSigned(i)).Extended? <==> i < 0 || i >= 0x20_0000)
    ensures f in {Size, Mtime} ==> (PlaceFor(Width(f), SetUnsigned(n)).Extended? <==> n >= 0x2_0000_0000)
  {
    FieldCapacities(n);
    if i >= 0 { FieldCapacities(i); }
  }

  /** When a time goes there: the same, or if it has nanoseconds; and an access time
      always. */
  lemma TimeSpillsIff(sec: I64, nsec: nat)
    ensures PlaceFor(Width(Mtime), SetTime(sec, nsec)).Extended?
            <==> nsec != 0 || sec < 0 || sec >= 0x2_0000_0000
    ensures PlaceFor(Width(Atime), SetTime(sec, nsec)).Extended?
  {
    if sec >= 0 { FieldCapacities(sec); }
  }

  // Old pairs go first, whatever happens then.
  function Cleared(h: Hdr, f: Field): seq<Entry> {
    if Keyword(f).Some? then Without(h.entries, Keyword(f).value) else h.entries
  }

  function FieldText(f: Field, p: Place): string {
    match p
    case InBlock(field) => field
    case Extended(_) => Padding(Width(f))
  }

  // The value goes where it goes: status and new header.  One that neither fits nor
  // has a keyword leaves a zeroed field and an error.
  function Fill(h: Hdr, f: Field, p: Place): (int, Hdr) {
    var blk := h.blk[f := FieldText(f, p)];
    match p
    case InBlock(_) => (PX_SUCCESS, Hdr(blk, h.entries))
    case Extended(v) =>
      if Keyword(f).None? then (PX_ERROR_WONT_FIT, Hdr(blk, h.entries))
      else (PX_SUCCESS, Hdr(blk, [Entry(Keyword(f).value, Typed(v))] + h.entries))
  }

  /** Remove the old pairs, then put the value. */
  function Put(h: Hdr, f: Field, p: Place): (int, Hdr) {
    Fill(Hdr(h.blk, Cleared(h, f)), f, p)
  }

  /** The setters. */
  function Set(h: Hdr, f: Field, s: Setting): (int, Hdr) {
    Put(h, f, PlaceFor(Width(f), s))
  }

  /** What a setter answers: a mode or device number with more than seven octal digits does
      not fit, and leaves a zeroed field; every other setting succeeds. */
  lemma SetOutcome(h: Hdr, f: Field, n: U64)
    requires f in {Mode, Devmajor, Devminor}
    ensures Set(h, f, SetUnsigned(n)).0 == if n < 0x20_0000 then 0 else -500
    ensures n >= 0x20_0000 ==> Set(h, f, SetUnsigned(n)).1 == Hdr(h.blk[f := Padding(8)], h.entries)
  {
    FieldCapacities(n);
  }

  lemma SetSucceeds(h: Hdr, f: Field, s: Setting)
    requires f in {Name, Linkname, Uname, Gname, Uid, Gid, Size, Mtime, Atime} || s.SetType?
    ensures Set(h, f, s).0 == 0
  {}

  // ------------------------------------------------------------ the getters

  /** All a getter looks at: the block field and the newest entry. */
  datatype Slot = Slot(field: string, newest: Option<Origin>)

  function SlotOf(h: Hdr, f: Field): Slot
    requires f in h.blk
  {
    Slot(h.blk[f], if Keyword(f).Some? then Newest(h.entries, Keyword(f).value) else None)
  }

  function TypeError(v: PaxValue): int {
    match v
    case I64(_) => PX_ERROR_I64_TYPE
    case U64(_) => PX_ERROR_U64_TYPE
    case Time(_, _) => PX_ERROR_TIME_TYPE
    case Text(_) => PX_ERROR_STRING_TYPE
  }

  /** _ph_get_string; None is a null pointer. */
  function GetString(s: Slot, f: Field): Result<Option<string>> {
    match s.newest
    case Some(FromLine(_, text)) => Ok(Some(text))
    case Some(Typed(v)) => if v.Text? then Ok(Some(v.text)) else Err(TypeError(v))
    case None =>
      var text := CText(s.field);
      if |text| >= Width(f) then Err(PX_ERROR_MALFORMED)
      else if text == "" then Ok(None)
      else Ok(Some(text))
  }

  /** _ph_get_unsigned */
  function GetUnsigned(s: Slot, f: Field): Result<U64> {
    match s.newest
    case Some(FromLine(_, text)) => ReadU64(text)
    case Some(Typed(v)) => if v.U64? then Ok(v.u) else Err(TypeError(v))
    case None => ValueOf(ParseU64(Octal, CText(s.field), Some(Width(f)), true, true))
  }

  /** _ph_get_signed */
  function GetSigned(s: Slot, f: Field): Result<I64> {
    match s.newest
    case Some(FromLine(_, text)) => ReadI64(text)
    case Some(Typed(v)) => if v.I64? then Ok(v.i) else Err(TypeError(v))
    case None => ValueOf(ParseI64(Octal, CText(s.field), Some(Width(f)), true, true))
  }

  /** _ph_get_time */
  function GetTime(s: Slot, f: Field): Result<(I64, nat)> {
    match s.newest
    case Some(FromLine(_, text)) => ReadTime(text)
    case Some(Typed(v)) => if v.Time? then Ok((v.sec, v.nsec)) else Err(TypeError(v))
    case None =>
      if f.Atime? then Ok((0, 0))
      else
        match ParseI64(Octal, CText(s.field), Some(Width(f)), true, true)
        case Ok(p) => Ok((p.value, 0))
        case Err(code) => Err(code)
  }

  /** A pair made from a value of another type is refused with that type's code. */
  lemma OtherTypesAreRefused(field: string, v: PaxValue, f: Field)
    ensures var slot := Slot(field, Some(Typed(v)));
            var code := match v case I64(_) => -211 case U64(_) => -212 case Time(_, _) => -213 case Text(_) => -214;
            && (GetString(slot, f) == if v.Text? then Ok(Some(v.text)) else Err(code))
            && (GetUnsigned(slot, f) == if v.U64? then Ok(v.u) else Err(code))
            && (GetSigned(slot, f) == if v.I64? then Ok(v.i) else Err(code))
            && (GetTime(slot, f) == if v.Time? then Ok((v.sec, v.nsec)) else Err(code))
  {}

  /** A field of the block read as a number, for every text in it: anything may follow the
      number, but it must be in range. */
  lemma FieldOutcome(field: string, f: Field, v: int, next: nat)
    requires |field| == Width(f) && Reads(Octal, CText(field), v, next)
    ensures GetUnsigned(Slot(field, None), f) == if 0 <= v <= 0xffff_ffff_ffff_ffff then Ok(v) else Err(-301)
    ensures GetSigned(Slot(field, None), f)
            == if -0x8000_0000_0000_0000 <= v <= 0x7fff_ffff_ffff_ffff then Ok(v) else Err(-301)
    ensures f != Atime ==>
              GetTime(Slot(field, None), f)
              == if -0x8000_0000_0000_0000 <= v <= 0x7fff_ffff_ffff_ffff then Ok((v, 0)) else Err(-301)
    ensures GetTime(Slot(field, None), Atime) == Ok((0, 0))
  {
    ParseOutcome(Octal, CText(field), Some(Width(f)), true, true, v, next);
  }

  /** Read as a string it must end with a NUL, and an empty one is a null pointer. */
  lemma StringOutcome(field: string, f: Field)
    requires |field| == Width(f)
    ensures '\0' !in field ==> GetString(Slot(field, None), f) == Err(-201)
    ensures '\0' in field ==>
              GetString(Slot(field, None), f) == Ok(if field[0] == '\0' then None else Some(CText(field)))
  {
    CTextIff(field, CText(field));
    CTextIff(field, field);
    if '\0' in field {
      assert CText(field) != field;
      assert |CText(field)| == |field| ==> CText(field) == field;
    }
  }

  /** The keywords of the pax standard under which the getters look; the other fields are
      looked for in the block alone. */
  lemma TextKeywords(h: Hdr)
    requires ValidBlock(h.blk)
    ensures SlotOf(h, Name) == Slot(h.blk[Name], Newest(h.entries, "path"))
    ensures SlotOf(h, Linkname) == Slot(h.blk[Linkname], Newest(h.entries, "linkpath"))
    ensures SlotOf(h, Uname) == Slot(h.blk[Uname], Newest(h.entries, "uname"))
    ensures SlotOf(h, Gname) == Slot(h.blk[Gname], Newest(h.entries, "gname"))
  {}

  lemma NumberKeywords(h: Hdr)
    requires ValidBlock(h.blk)
    ensures SlotOf(h, Uid) == Slot(h.blk[Uid], Newest(h.entries, "uid"))
    ensures SlotOf(h, Gid) == Slot(h.blk[Gid], Newest(h.entries, "gid"))
    ensures SlotOf(h, Size) == Slot(h.blk[Size], Newest(h.entries, "size"))
    ensures SlotOf(h, Mtime) == Slot(h.blk[Mtime], Newest(h.entries, "mtime"))
    ensures SlotOf(h, Atime) == Slot(h.blk[Atime], Newest(h.entries, "atime"))
  {}

  lemma NoKeyword(h: Hdr, f: Field)
    requires ValidBlock(h.blk)
    ensures Keyword(f).None? <==> f in {Mode, Chksum, Type, Magic, Version, Devmajor, Devminor, Prefix}
    ensures Keyword(f).None? ==> SlotOf(h, f) == Slot(h.blk[f], None)
  {}

  // ------------------------------------------------------------ set, then get

  // What a getter of the field finds after a value was put.
  function SlotFor(f: Field, p: Place): Slot {
    match p
    case InBlock(field) => Slot(field, None)
    case Extended(v) => Slot(Padding(Width(f)), if Keyword(f).Some? then Some(Typed(v)) else None)
  }

  function Stored(f: Field, s: Setting): Slot {
    SlotFor(f, PlaceFor(Width(f), s))
  }

  lemma NewestAfterPut(entries: seq<Entry>, e: Entry, other: string)
    ensures Newest([e] + Without(entries, e.keyword), other)
            == if other == e.keyword then Some(e.origin) else Newest(entries, other)
  {
    NewestWithout(entries, e.keyword, other);
    assert ([e] + Without(entries, e.keyword))[1..] == Without(entries, e.keyword);
  }

  /** A put reaches its own field, whatever was there before. */
  lemma PutReaches(h: Hdr, f: Field, p: Place)
    ensures SlotOf(Put(h, f, p).1, f) == SlotFor(f, p)
  {
    if Keyword(f).Some? {
      var k := Keyword(f).value;
      NewestWithout(h.entries, k, k);
      if p.Extended? { NewestAfterPut(h.entries, Entry(k, Typed(p.v)), k); }
    }
  }

  lemma PutSparesKeyword(h: Hdr, f: Field, p: Place, other: string)
    requires Keyword(f) != Some(other)
    ensures Newest(Put(h, f, p).1.entries, other) == Newest(h.entries, other)
  {
    if Keyword(f).Some? {
      NewestWithout(h.entries, Keyword(f).value, other);
      if p.Extended? { NewestAfterPut(h.entries, Entry(Keyword(f).value, Typed(p.v)), other); }
    }
  }

  lemma PutSparesBlock(h: Hdr, f: Field, p: Place, g: Field)
    requires g in h.blk && g != f
    ensures g in Put(h, f, p).1.blk && Put(h, f, p).1.blk[g] == h.blk[g]
  {
    assert Put(h, f, p).1.blk == h.blk[f := FieldText(f, p)];
  }

  /** A put leaves every other field alone. */
  lemma PutSparesOthers(h: Hdr, f: Field, p: Place, g: Field)
    requires g in h.blk && g != f
    ensures g in Put(h, f, p).1.blk && SlotOf(Put(h, f, p).1, g) == SlotOf(h, g)
  {
    PutSparesBlock(h, f, p, g);
    if Keyword(g).Some? {
      KeywordsDiffer(g, f);
      PutSparesKeyword(h, f, p, Keyword(g).value);
    }
  }

  lemma SetReaches(h: Hdr, f: Field, s: Setting)
    ensures SlotOf(Set(h, f, s).1, f) == Stored(f, s)
  {
    PutReaches(h, f, PlaceFor(Width(f), s));
  }

  lemma SetSpares(h: Hdr, f: Field, s: Setting, g: Field)
    requires g in h.blk && g != f
    ensures g in Set(h, f, s).1.blk && SlotOf(Set(h, f, s).1, g) == SlotOf(h, g)
  {
    PutSparesOthers(h, f, PlaceFor(Width(f), s), g);
  }

  // What any getter sees after a setting.
  function SlotAfter(before: Slot, f: Field, s: Setting, g: Field): Slot {
    if g == f then Stored(f, s) else before
  }

  lemma SetSlot(h: Hdr, f: Field, s: Setting, g: Field, after: Hdr)
    requires g in h.blk && after == Set(h, f, s).1
    ensures g in after.blk && SlotOf(after, g) == SlotAfter(SlotOf(h, g), f, s, g)
  {
    if g == f { SetReaches(h, f, s); } else { SetSpares(h, f, s, g); }
  }

  /** Any sequence of settings. */
  function Run(h: Hdr, ops: seq<(Field, Setting)>): Hdr {
    if ops == [] then h
    else
      var n := |ops| - 1;
      Set(Run(h, ops[..n]), ops[n].0, ops[n].1).1
  }

  /** What a getter sees after one more setting. */
  lemma RunSlot(h: Hdr, ops: seq<(Field, Setting)>, op: (Field, Setting), g: Field)
    requires g in Run(h, ops).blk
    ensures g in Run(h, ops + [op]).blk
    ensures SlotOf(Run(h, ops + [op]), g) == SlotAfter(SlotOf(Run(h, ops), g), op.0, op.1, g)
  {
    assert (ops + [op])[..|ops|] == ops;
    SetSlot(Run(h, ops), op.0, op.1, g, Run(h, ops + [op]));
  }

  /** After any sequence of settings a field's getter sees the last setting of that
      field, wherever it was put. */
  lemma {:induction false} LastSettingWins(h: Hdr, ops: seq<(Field, Setting)>, i: nat)
    requires i < |ops| && ops[i].0 in h.blk
    requires forall j | i < j < |ops| :: ops[j].0 != ops[i].0
    ensures ops[i].0 in Run(h, ops).blk
    ensures SlotOf(Run(h, ops), ops[i].0) == Stored(ops[i].0, ops[i].1)
  {
    var n := |ops| - 1;
    assert ops == ops[..n] + [ops[n]];
    RunKeepsFields(h, ops[..n], ops[i].0);
    if i < n { LastSettingWins(h, ops[..n], i); }
    RunSlot(h, ops[..n], ops[n], ops[i].0);
  }

  lemma {:induction false} RunKeepsFields(h: Hdr, ops: seq<(Field, Setting)>, f: Field)
    requires f in h.blk
    ensures f in Run(h, ops).blk
  {
    if ops != [] { RunKeepsFields(h, ops[..|ops| - 1], f); }
  }

  /** A C string comes back unless it has exactly the field's width (it loses its
      last character) or is empty (it comes back as a null pointer). */
  lemma StringComesBack(f: Field, src: string)
    requires f in {Name, Linkname, Uname, Gname} && IsCString(src)
    ensures GetString(Stored(f, SetString(src)), f)
            == Ok(if src == "" then None
                  else if |src| == Width(f) then Some(src[..|src| - 1]) else Some(src))
    ensures GetString(Stored(f, SetString(src)), f) == Ok(Some(src)) <==> src != "" && |src| != Width(f)
  {
    var w := Width(f);
    if |src| < w {
      CTextOf(src, Padding(w - |src|));
    } else if |src| == w {
      CTextOf(src[..w - 1], Padding(1));
    }
  }

  lemma ScanOctal(n: nat, w: nat)
    requires w > 1 && Fits(n, w)
    ensures CText(OctalText(n, w) + "\0") == OctalText(n, w)
    ensures ScanNumber(Octal, OctalText(n, w)) == Scan(false, n, |OctalText(n, w)|)
    ensures OctalText(n, w) != "" && !IsSpace(OctalText(n, w)[0])
  {
    var s, t := Numeral(Octal, n), OctalText(n, w);
    ValueOfNumeral(Octal, n);
    var k := if |s| < w - 1 then w - 1 - |s| else 0;
    assert t == Zeros(k) + s;
    LeadingZeros(Octal, k, s);
    assert forall c <- t :: Octal.IsDigit(c);
    CTextOf(t, "\0");
    ScanNumeral(Octal, t, "");
    assert t + "" == t && t[0] in t;
  }

  /** The text in the block: one octal digit for every place but the last, and together the
      number. */
  lemma OctalTextIs(n: nat, w: nat)
    requires w > 1 && Fits(n, w)
    ensures |OctalText(n, w)| == w - 1 && AllDigits(Octal, OctalText(n, w)) && Value(Octal, OctalText(n, w)) == n
  {
    var s := Numeral(Octal, n);
    ValueOfNumeral(Octal, n);
    var k := if |s| < w - 1 then w - 1 - |s| else 0;
    assert OctalText(n, w) == Zeros(k) + s;
    LeadingZeros(Octal, k, s);
  }

  lemma OctalParses(n: U64, w: nat)
    requires w > 1 && Fits(n, w)
    ensures ValueOf(ParseU64(Octal, CText(OctalText(n, w) + "\0"), Some(w), true, true)) == Ok(n)
    ensures n <= I64_MAX ==> ValueOf(ParseI64(Octal, CText(OctalText(n, w) + "\0"), Some(w), true, true)) == Ok(n)
  {
    ScanOctal(n, w);
  }

  /** Octal text in the block reads as its number, whichever getter looks. */
  lemma OctalComesBack(f: Field, n: U64)
    requires Width(f) > 1 && Fits(n, Width(f))
    ensures var slot := Slot(OctalText(n, Width(f)) + "\0", None);
            && GetUnsigned(slot, f) == Ok(n)
            && (n <= I64_MAX ==> GetSigned(slot, f) == Ok(n) && GetTime(slot, f) == Ok((n, 0)))
  {
    OctalParses(n, Width(f));
  }

  /** A number set as unsigned comes back as unsigned from every numeric field with
      a keyword; from the others exactly when it fits. */
  lemma UnsignedComesBack(f: Field, n: U64)
    requires Width(f) > 1
    ensures Fits(n, Width(f)) || Keyword(f).Some? ==> GetUnsigned(Stored(f, SetUnsigned(n)), f) == Ok(n)
    ensures !Fits(n, Width(f)) && Keyword(f).None? ==> Stored(f, SetUnsigned(n)) == Slot(Padding(Width(f)), None)
  {
    if Fits(n, Width(f)) { OctalComesBack(f, n); }
  }

  /** ph_set_uid and ph_set_gid when the type is signed: negative ids are set as
      signed, the others as unsigned. */
  function SetId(i: I64): Setting {
    if i >= 0 then SetUnsigned(i) else SetSigned(i)
  }

  /** Read back as signed, a non-negative id that does not fit the field is a type
      error: it was stored as an unsigned pair.  All others come back. */
  lemma SignedIdComesBack(f: Field, i: I64)
    requires f in {Uid, Gid}
    ensures GetSigned(Stored(f, SetId(i)), f)
            == if i >= 0 && !Fits(i, Width(f)) then Err(PX_ERROR_U64_TYPE) else Ok(i)
  {
    if i >= 0 && Fits(i, Width(f)) { OctalComesBack(f, i); }
  }

  /** Every time comes back from mtime and atime. */
  lemma TimeComesBack(f: Field, sec: I64, nsec: nat)
    requires f in {Mtime, Atime}
    ensures GetTime(Stored(f, SetTime(sec, nsec)), f) == Ok((sec, nsec))
  {
    if f.Mtime? && nsec == 0 && sec >= 0 && Fits(sec, Width(f)) { OctalComesBack(f, sec); }
  }
}

/** Writing a header to bytes and loading it again. */
module PaxHeaderFile {
  import opened Common
  import opened CString
  import opened Numerals
  import opened PaxErrors
  import opened PaxUtil
  import opened PaxRecord
  import opened PaxHeader

  // ------------------------------------------------------------ the block as bytes

  /** Where a field starts in the 512-byte block; the last 12 bytes are in no field. */
  function Offset(f: Field): nat {
    match f
    case Name => 0
    case Mode => 100
    case Uid => 108
    case Gid => 116
    case Size => 124
    case Mtime => 136
    case Chksum => 148
    case Type => 156
    case Linkname => 157
    case Magic => 257
    case Version => 263
    case Uname => 265
    case Gname => 297
    case Devmajor => 329
    case Devminor => 337
    case Prefix => 345
    case Atime => 500
  }

  // The field byte i belongs to.
  function FieldAt(i: nat): (f: Option<Field>)
    ensures f.Some? ==> Offset(f.value) <= i < Offset(f.value) + Width(f.value)
    ensures f.None? <==> i >= 500
  {
    if i < 124 then Some(if i < 100 then Name else if i < 108 then Mode else if i < 116 then Uid else Gid)
    else if i < 157 then Some(if i < 136 then Size else if i < 148 then Mtime else if i < 156 then Chksum else Type)
    else if i < 297 then
      Some(if i < 257 then Linkname else if i < 263 then Magic else if i < 265 then Version else Uname)
    else if i < 500 then
      Some(if i < 329 then Gname else if i < 337 then Devmajor else if i < 345 then Devminor else Prefix)
    else None
  }

  lemma FieldsAreApart(f: Field, i: nat)
    requires Offset(f) <= i < Offset(f) + Width(f)
    ensures FieldAt(i) == Some(f)
  {
    assert i < 500;
    var g := FieldAt(i).value;
    if i < 157 {
      assert Offset(f) <= 156 && Offset(g) <= 156;
    }
  }

  function ByteAt(b: Block, i: nat): char
    requires ValidBlock(b)
  {
    match FieldAt(i)
    case Some(f) => b[f][i - Offset(f)]
    case None => '\0'
  }

  /** A ustar block as bytes. */
  function BlockBytes(b: Block): (s: string)
    requires ValidBlock(b)
    ensures |s| == BLOCK
  {
    seq(BLOCK, i requires 0 <= i < BLOCK => ByteAt(b, i))
  }

  function BlockField(s: string, f: Field): (t: string)
    requires |s| >= BLOCK
    ensures |t| == Width(f)
  {
    s[Offset(f)..Offset(f) + Width(f)]
  }

  lemma BlockRoundTrip(b: Block, tail: string, f: Field)
    requires ValidBlock(b)
    ensures BlockField(BlockBytes(b) + tail, f) == b[f]
  {
    var t := BlockField(BlockBytes(b) + tail, f);
    forall k | 0 <= k < Width(f) ensures t[k] == b[f][k] {
      FieldsAreApart(f, Offset(f) + k);
    }
  }

  // ------------------------------------------------------------ the layout of the block

  lemma FourParts(s: string, i: nat, j: nat, k: nat, l: nat, m: nat)
    requires i <= j <= k <= l <= m <= |s|
    ensures s[i..m] == s[i..j] + s[j..k] + s[k..l] + s[l..m]
  {
    assert s[i..k] == s[i..j] + s[j..k];
    assert s[i..l] == s[i..k] + s[k..l];
    assert s[i..m] == s[i..l] + s[l..m];
  }

  lemma FieldOf(b: Block, s: string, f: Field)
    requires ValidBlock(b) && s == BlockBytes(b)
    ensures s[Offset(f)..Offset(f) + Width(f)] == b[f]
  {
    assert s + "" == s;
    BlockRoundTrip(b, "", f);
  }

  lemma FileFields(b: Block, s: string)
    requires ValidBlock(b) && s == BlockBytes(b)
    ensures s[0..124] == b[Name] + b[Mode] + b[Uid] + b[Gid]
  {
    FieldOf(b, s, Name);
    FieldOf(b, s, Mode);
    FieldOf(b, s, Uid);
    FieldOf(b, s, Gid);
    FourParts(s, 0, 100, 108, 116, 124);
  }

  lemma SizeFields(b: Block, s: string)
    requires ValidBlock(b) && s == BlockBytes(b)
    ensures s[124..157] == b[Size] + b[Mtime] + b[Chksum] + b[Type]
  {
    FieldOf(b, s, Size);
    FieldOf(b, s, Mtime);
    FieldOf(b, s, Chksum);
    FieldOf(b, s, Type);
    FourParts(s, 124, 136, 148, 156, 157);
  }

  lemma LinkFields(b: Block, s: string)
    requires ValidBlock(b) && s == BlockBytes(b)
    ensures s[157..297] == b[Linkname] + b[Magic] + b[Version] + b[Uname]
  {
    FieldOf(b, s, Linkname);
    FieldOf(b, s, Magic);
    FieldOf(b, s, Version);
    FieldOf(b, s, Uname);
    FourParts(s, 157, 257, 263, 265, 297);
  }

  lemma GroupFields(b: Block, s: string)
    requires ValidBlock(b) && s == BlockBytes(b)
    ensures s[297..500] == b[Gname] + b[Devmajor] + b[Devminor] + b[Prefix]
  {
    FieldOf(b, s, Gname);
    FieldOf(b, s, Devmajor);
    FieldOf(b, s, Devminor);
    FieldOf(b, s, Prefix);
    FourParts(s, 297, 329, 337, 345, 500);
  }

  /** A block in memory is its fields in the order of the C structure, and twelve zeros. */
  lemma BlockLayout(b: Block)
    requires ValidBlock(b)
    ensures BlockBytes(b)
            == (b[Name] + b[Mode] + b[Uid] + b[Gid])
               + (b[Size] + b[Mtime] + b[Chksum] + b[Type])
               + (b[Linkname] + b[Magic] + b[Version] + b[Uname])
               + (b[Gname] + b[Devmajor] + b[Devminor] + b[Prefix])
               + Padding(12)
  {
    var s := BlockBytes(b);
    FileFields(b, s);
    SizeFields(b, s);
    LinkFields(b, s);
    GroupFields(b, s);
    FourParts(s, 0, 124, 157, 297, 500);
    assert s[500..512] == Padding(12);
    assert s == s[0..500] + s[500..512];
  }

  /** The positions of the fields in the C structure (pax_hdr.h). */
  predicate StandsAt(f: Field, i: nat, j: nat) {
    match f
    case Name => (i, j) == (0, 100)
    case Mode => (i, j) == (100, 108)
    case Uid => (i, j) == (108, 116)
    case Gid => (i, j) == (116, 124)
    case Size => (i, j) == (124, 136)
    case Mtime => (i, j) == (136, 148)
    case Chksum => (i, j) == (148, 156)
    case Type => (i, j) == (156, 157)
    case Linkname => (i, j) == (157, 257)
    case Magic => (i, j) == (257, 263)
    case Version => (i, j) == (263, 265)
    case Uname => (i, j) == (265, 297)
    case Gname => (i, j) == (297, 329)
    case Devmajor => (i, j) == (329, 337)
    case Devminor => (i, j) == (337, 345)
    case Prefix => (i, j) == (345, 500)
    case Atime => false
  }

  /** The fields of any 512 bytes that are loaded are the bytes at their positions. */
  lemma LoadedLayout(s: string, f: Field, i: nat, j: nat)
    requires |s| >= BLOCK && StandsAt(f, i, j)
    ensures i <= j <= |s| && LoadedBlock(s)[f] == s[i..j]
  {}

  // ------------------------------------------------------------ ph_is_pax_hdr

  /** A standard header, or an extended one and how many bytes follow the block. */
  datatype Kind = Standard | ExtendedBy(additional: nat)

  function KindOf(magic: string, version: string, t: string, size: string): Result<Kind> {
    if magic != "ustar\0" || version != "00" then Err(PX_ERROR_NOT_PAX_HEADER)
    else if |t| == 1 && '0' <= t[0] <= '7' then Ok(Standard)
    else if t == "g" || t == "x" then
      match ParseSize(Octal, CText(size))
      case Err(code) => Err(code)
      case Ok(n) => if t == "g" then Err(PX_ERROR_NOT_SUPPORTED) else Ok(ExtendedBy(RoundToBlock(n) + BLOCK))
    else Err(PX_ERROR_NOT_PAX_HEADER)
  }

  /** ph_is_pax_hdr */
  function IsPaxHdr(s: string): Result<Kind>
    requires |s| >= BLOCK
  {
    KindOf(BlockField(s, Magic), BlockField(s, Version), BlockField(s, Type), BlockField(s, Size))
  }

  // The marks, the type and the size of 512 bytes, where the structure has them.
  predicate HasMarks(s: string)
    requires |s| >= BLOCK
  {
    s[257..263] == "ustar\0" && s[263..265] == "00"
  }

  predicate IsStandard(s: string)
    requires |s| >= BLOCK
  {
    HasMarks(s) && '0' <= s[156] <= '7'
  }

  ghost predicate IsExtended(s: string, size: nat)
    requires |s| >= BLOCK
  {
    HasMarks(s) && s[156] == 'x' && Announces(Octal, CText(s[124..136]), size)
  }

  /** Any 512 bytes are a standard header if and only if these bytes of them say so. */
  lemma StandardIff(s: string)
    requires |s| >= BLOCK
    ensures IsPaxHdr(s) == Ok(Standard) <==> IsStandard(s)
  {
    assert s[156..157] == [s[156]];
  }

  lemma FieldsOfBytes(s: string)
    requires |s| >= BLOCK
    ensures BlockField(s, Magic) == s[257..263] && BlockField(s, Version) == s[263..265]
    ensures BlockField(s, Type) == [s[156]] && BlockField(s, Size) == s[124..136]
  {}

  lemma KindOfBytes(s: string)
    requires |s| >= BLOCK
    ensures IsPaxHdr(s) == KindOf(s[257..263], s[263..265], [s[156]], s[124..136])
  {
    FieldsOfBytes(s);
  }

  /** So with an extended header, and how many bytes follow its first block. */
  lemma ExtendedSays(s: string, size: nat)
    requires |s| >= BLOCK && IsExtended(s, size)
    ensures IsPaxHdr(s) == Ok(ExtendedBy(RoundToBlock(size) + 512))
  {
    KindOfBytes(s);
    AnnouncesIff(Octal, CText(s[124..136]), size);
  }

  lemma ExtendedIsThere(s: string, n: nat) returns (size: nat)
    requires |s| >= BLOCK && IsPaxHdr(s) == Ok(ExtendedBy(n))
    ensures IsExtended(s, size) && n == RoundToBlock(size) + 512
  {
    KindOfBytes(s);
    size := ParseSize(Octal, CText(s[124..136])).value;
    AnnouncesIff(Octal, CText(s[124..136]), size);
  }

  /** Other bytes are refused; a global header is recognised, but not supported. */
  lemma OthersAreRefused(s: string)
    requires |s| >= BLOCK && (!HasMarks(s) || !('0' <= s[156] <= '7' || s[156] == 'x' || s[156] == 'g'))
    ensures IsPaxHdr(s) == Err(-105)
  {
    KindOfBytes(s);
  }

  lemma GlobalIsRefused(s: string, size: nat)
    requires |s| >= BLOCK && HasMarks(s) && s[156] == 'g' && Announces(Octal, CText(s[124..136]), size)
    ensures IsPaxHdr(s) == Err(-107)
  {
    KindOfBytes(s);
    AnnouncesIff(Octal, CText(s[124..136]), size);
  }

  // Bytes that begin with a block are of the block's kind.
  lemma KindOfBlock(b: Block, s: string)
    requires ValidBlock(b) && BlockBytes(b) <= s
    ensures IsPaxHdr(s) == KindOf(b[Magic], b[Version], b[Type], b[Size])
  {
    var tail := s[BLOCK..];
    assert s == BlockBytes(b) + tail;
    BlockRoundTrip(b, tail, Magic);
    BlockRoundTrip(b, tail, Version);
    BlockRoundTrip(b, tail, Type);
    BlockRoundTrip(b, tail, Size);
  }

  // ------------------------------------------------------------ the blocks and lines

  /** What the file name callback and the checksum put into a block. */
  datatype Extra = Extra(name: string, prefix: string, chksum: string)

  predicate ValidExtra(x: Extra) {
    |x.name| == Width(Name) && |x.prefix| == Width(Prefix) && |x.chksum| == Width(Chksum)
  }

  // MERGE_FIELD: the header's own field unless it is empty.
  function Merged(own: string, default: string): string {
    if own != "" && own[0] != '\0' then own else default
  }

  /** write_merged_ustar_blk: field by field.  The link name is merged only when
      there is no extended data. */
  function WrittenField(blk: Block, extended: bool, d: Block, asXhdr: bool, x: Extra, f: Field): (t: string)
    requires ValidBlock(blk) && ValidBlock(d) && ValidExtra(x)
    ensures |t| == Width(f)
  {
    var own, default := blk[f], d[f];
    match f
    case Mode | Uid | Gid | Size | Mtime | Magic | Uname | Gname | Devmajor | Devminor => Merged(own, default)
    case Version => if own[0] != '\0' && own[1] != '\0' then own else default
    case Type => if asXhdr then "x" else own
    case Name => if extended then x.name else Merged(own, default)
    case Linkname => if extended then default else Merged(own, default)
    case Prefix => if extended then x.prefix else default
    case Chksum => x.chksum
    case Atime => ""
  }

  function MergedBlock(blk: Block, extended: bool, d: Block, asXhdr: bool, x: Extra): (b: Block)
    requires ValidBlock(blk) && ValidBlock(d) && ValidExtra(x)
    ensures ValidBlock(b)
    ensures forall f: Field :: b[f] == WrittenField(blk, extended, d, asXhdr, x, f)
  {
    map f: Field | true :: WrittenField(blk, extended, d, asXhdr, x, f)
  }

  function WrittenBlock(h: Hdr, d: Block, asXhdr: bool, x: Extra): (b: Block)
    requires ValidBlock(h.blk) && ValidBlock(d) && ValidExtra(x)
    ensures ValidBlock(b)
  {
    MergedBlock(h.blk, h.entries != [], d, asXhdr, x)
  }

  /** ph_get_header_size */
  function HeaderSize(h: Hdr): nat
    requires PrintableEntries(h.entries)
  {
    if h.entries == [] then BLOCK else RoundToBlock(|EntryLines(h.entries)|) + 2 * BLOCK
  }

  function XhdrBlock(h: Hdr, d: Block, x: Extra, n: nat): (b: Block)
    requires ValidBlock(h.blk) && ValidBlock(d) && ValidExtra(x) && Fits(n, Width(Size))
    ensures ValidBlock(b)
  {
    WrittenBlock(h, d, true, x)[Size := OctalText(n, Width(Size)) + "\0"]
  }

  function Assembled(x: string, lines: string, file: string): string {
    x + lines + Padding(RoundToBlock(|lines|) - |lines|) + file
  }

  // The bytes ph_write_header puts into a buffer that is large enough.
  function WriteBlocks(h: Hdr, d: Block, forXhdr: Extra, forFile: Extra): Result<string>
    requires ValidBlock(h.blk) && ValidBlock(d) && ValidExtra(forXhdr) && ValidExtra(forFile)
    requires PrintableEntries(h.entries)
  {
    var file := BlockBytes(WrittenBlock(h, d, false, forFile));
    if h.entries == [] then Ok(file)
    else
      var lines := EntryLines(h.entries);
      if !Fits(|lines|, Width(Size)) then Err(PX_ERROR_WONT_FIT)
      else
        Ok(Assembled(BlockBytes(XhdrBlock(h, d, forXhdr, |lines|)), lines, file))
  }

  // ------------------------------------------------------------ the file name callback

  /** The name and prefix fields of a block. */
  datatype NameFields = NameFields(name: string, prefix: string)

  type Names = n: NameFields | |n.name| == 100 && |n.prefix| == 155
    ghost witness NameFields(Padding(100), Padding(155))

  /** Which block the name is for. */
  datatype NameType = XhdrName | FileName

  /** pax_filename_callback_t: the fields as the defaults have them and the file's actual
      name, None for a null pointer, give the new fields or an error. */
  type Callback = (Names, Option<string>, NameType) -> Result<Names>

  /** What a callback is told to do (pax_hdr.h): an actual name that fits the field is
      copied verbatim into the block of the file. */
  ghost predicate CopiesShortNames(callback: Callback) {
    forall n: Names, actual: string | IsCString(actual) && |actual| < Width(Name) ::
      var r := callback(n, Some(actual), FileName);
      r.Ok? ==> CText(r.value.name) == actual
  }

  // strcpy or snprintf of a shorter string into a buffer.
  function Overwritten(buf: string, s: string): (r: string)
    requires |s| < |buf|
    ensures |r| == |buf|
  {
    s + "\0" + buf[|s| + 1..]
  }

  // The prefix, a slash and the name in the name field, or each in its own.
  function Combined(n: Names, prefix: string, name: string): Result<Names> {
    if |prefix| + 1 + |name| < Width(Name) then
      Ok(NameFields(Overwritten(n.name, prefix + "/" + name), n.prefix))
    else if |name| < Width(Name) && |prefix| < Width(Prefix) then
      Ok(NameFields(Overwritten(n.name, name), Overwritten(n.prefix, prefix)))
    else Err(PX_ERROR_OVERFLOW)
  }

  /** ph_basic_name_callback, where ph_generate_short_name makes the name short from the
      time and a serial number. */
  function BasicName(short: string, n: Names, actual: Option<string>, t: NameType): Result<Names> {
    match actual
    case None => Err(PX_ERROR_INVALID)
    case Some(a) =>
      var prefix := if t.FileName? then "file_" else "pax__";
      if |a| >= Width(Name) then
        if |short| >= Width(Name) then Err(PX_ERROR_OVERFLOW) else Combined(n, prefix, short)
      else if t.FileName? then Ok(NameFields(Overwritten(n.name, a), n.prefix))
      else Combined(n, prefix, a)
  }

  function Basic(short: string): Callback {
    (n, actual, t) => BasicName(short, n, actual, t)
  }

  lemma OverwrittenReads(buf: string, s: string)
    requires |s| < |buf| && IsCString(s)
    ensures CText(Overwritten(buf, s)) == s
  {
    assert Overwritten(buf, s) == s + ("\0" + buf[|s| + 1..]);
    CTextOf(s, "\0" + buf[|s| + 1..]);
  }

  /** The library's own callback does what callbacks are told to. */
  lemma BasicCopiesShortNames(short: string)
    ensures CopiesShortNames(Basic(short))
  {
    forall n: Names, a: string | IsCString(a) && |a| < Width(Name)
      ensures CText(Basic(short)(n, Some(a), FileName).value.name) == a
    {
      OverwrittenReads(n.name, a);
    }
  }

  /** It fails exactly on a null name, or if it needs a short name and that is too long;
      and the names made for the two blocks of a file differ in their prefix only. */
  lemma BasicSucceedsIff(short: string, n: Names, actual: Option<string>, t: NameType)
    ensures Basic(short)(n, actual, t).Ok?
            <==> actual.Some? && (|actual.value| >= Width(Name) ==> |short| < Width(Name))
    ensures actual.Some? && |actual.value| >= Width(Name) && IsCString(short) && |short| < Width(Name) - 6 ==>
              CText(Basic(short)(n, actual, t).value.name)
              == (if t.FileName? then "file_" else "pax__") + "/" + short
  {
    if actual.Some? && |actual.value| >= Width(Name) && IsCString(short) && |short| < Width(Name) - 6 {
      OverwrittenReads(n.name, (if t.FileName? then "file_" else "pax__") + "/" + short);
    }
  }

  /** The names it makes: a name with room for the prefix and a slash stands behind them
      in the name field, a longer one beside its prefix; and its error codes. */
  lemma BasicNames(short: string, n: Names, a: string, t: NameType)
    requires IsCString(short) && IsCString(a)
    ensures Basic(short)(n, None, t) == Err(-101)
    ensures |a| >= 100 && |short| >= 100 ==> Basic(short)(n, Some(a), t) == Err(-400)
    ensures |a| < 100 && t.FileName? ==>
              var r := Basic(short)(n, Some(a), t); r.Ok? && CText(r.value.name) == a && r.value.prefix == n.prefix
    ensures |a| >= 100 && |short| < 100 ==>
              Basic(short)(n, Some(a), t).Ok?
              && Holds(Basic(short)(n, Some(a), t).value, if t.FileName? then "file_" else "pax__", short, n)
    ensures |a| < 100 && t.XhdrName? ==>
              Basic(short)(n, Some(a), t).Ok? && Holds(Basic(short)(n, Some(a), t).value, "pax__", a, n)
  {
    if |a| < 100 { OverwrittenReads(n.name, a); }
    if |a| < 100 { CombinedHolds(n, "pax__", a); }
    if |short| < 100 { CombinedHolds(n, if t.FileName? then "file_" else "pax__", short); }
  }

  // Both in the name field, the prefix field as it was; or each in its own.
  predicate Holds(r: Names, prefix: string, name: string, n: Names) {
    if |name| < 94 then CText(r.name) == prefix + "/" + name && r.prefix == n.prefix
    else CText(r.name) == name && CText(r.prefix) == prefix
  }

  lemma CombinedHolds(n: Names, prefix: string, name: string)
    requires |prefix| == 5 && |name| < 100 && IsCString(prefix) && IsCString(name)
    ensures Combined(n, prefix, name).Ok? && Holds(Combined(n, prefix, name).value, prefix, name, n)
  {
    if |name| < 94 {
      OverwrittenReads(n.name, prefix + "/" + name);
    } else {
      OverwrittenReads(n.name, name);
      OverwrittenReads(n.prefix, prefix);
    }
  }

  // ------------------------------------------------------------ ph_write_header

  /** The checksum fields of the two blocks. */
  datatype Sums = Sums(forXhdr: string, forFile: string)

  predicate ValidSums(c: Sums) {
    |c.forXhdr| == Width(Chksum) && |c.forFile| == Width(Chksum)
  }

  predicate ValidDefaults(defaults: Option<Hdr>) {
    defaults.Some? ==> ValidBlock(defaults.value.blk)
  }

  // The callback's fields for one block.
  function CallFor(callback: Callback, d: Block, actual: Option<string>, t: NameType): Result<Names>
    requires ValidBlock(d)
  {
    callback(NameFields(d[Name], d[Prefix]), actual, t)
  }

  function ExtraOf(n: Names, chksum: string): (x: Extra)
    requires |chksum| == Width(Chksum)
    ensures ValidExtra(x)
  {
    Extra(n.name, n.prefix, chksum)
  }

  // With extended data: the name is looked up, and the callback asked for both blocks.
  function WriteExtended(h: Hdr, d: Block, callback: Callback, sums: Sums): Result<string>
    requires ValidBlock(h.blk) && PrintableEntries(h.entries) && ValidBlock(d) && ValidSums(sums)
  {
    var name := GetString(SlotOf(h, Name), Name);
    if name.Err? then Err(name.code)
    else
      var x := CallFor(callback, d, name.value, XhdrName);
      if x.Err? then Err(x.code)
      else if !Fits(|EntryLines(h.entries)|, Width(Size)) then Err(PX_ERROR_WONT_FIT)
      else
        var y := CallFor(callback, d, name.value, FileName);
        if y.Err? then Err(y.code)
        else WriteBlocks(h, d, ExtraOf(x.value, sums.forXhdr), ExtraOf(y.value, sums.forFile))
  }

  /** ph_write_header into a buffer that is large enough.  Defaults are needed for every
      header, but their absence is only seen when there is extended data. */
  function Write(h: Hdr, defaults: Option<Hdr>, callback: Callback, sums: Sums): Result<string>
    requires ValidBlock(h.blk) && PrintableEntries(h.entries) && ValidDefaults(defaults) && ValidSums(sums)
    requires h.entries == [] ==> defaults.Some?
  {
    if h.entries == [] then
      var d := defaults.value.blk;
      var unused := Extra(d[Name], d[Prefix], sums.forFile);
      WriteBlocks(h, d, unused, unused)
    else if defaults.None? then Err(PX_ERROR_REQUIRE_DEFAULTS)
    else if defaults.value.entries != [] then Err(PX_ERROR_DEFAULTS_XHDR)
    else WriteExtended(h, defaults.value.blk, callback, sums)
  }

  /** With the library's own callback, a header without extended data is always written;
      one with extended data if and only if the defaults have none, it has a name that
      can be read, and the length of the lines fits the size field. */
  lemma BasicWriteSucceedsIff(h: Hdr, d: Hdr, short: string, sums: Sums)
    requires ValidBlock(h.blk) && PrintableEntries(h.entries) && ValidBlock(d.blk) && ValidSums(sums)
    requires |short| < Width(Name)
    ensures Write(h, Some(d), Basic(short), sums).Ok?
            <==> || h.entries == []
                 || (&& d.entries == [] && Fits(|EntryLines(h.entries)|, Width(Size))
                     && var name := GetString(SlotOf(h, Name), Name); name.Ok? && name.value.Some?)
  {
    var name := GetString(SlotOf(h, Name), Name);
    if name.Ok? {
      var n := NameFields(d.blk[Name], d.blk[Prefix]);
      BasicSucceedsIff(short, n, name.value, XhdrName);
      BasicSucceedsIff(short, n, name.value, FileName);
    }
  }

  /** What ph_write_header answers when there is extended data: no defaults, defaults with
      extended data, a name that cannot be read, the callback's refusal for either block,
      lines of 8 GB and more; and otherwise bytes. */
  lemma WriteOutcome(h: Hdr, defaults: Option<Hdr>, callback: Callback, sums: Sums)
    requires ValidBlock(h.blk) && PrintableEntries(h.entries) && ValidDefaults(defaults) && ValidSums(sums)
    requires h.entries != []
    ensures var r := Write(h, defaults, callback, sums);
            if defaults.None? then r == Err(-108)
            else if defaults.value.entries != [] then r == Err(-109)
            else
              var n := NameFields(defaults.value.blk[Name], defaults.value.blk[Prefix]);
              match GetString(SlotOf(h, Name), Name)
              case Err(code) => r == Err(code)
              case Ok(name) =>
                var x, y := callback(n, name, XhdrName), callback(n, name, FileName);
                if x.Err? then r == Err(x.code)
                else if |EntryLines(h.entries)| >= 0x2_0000_0000 then r == Err(-500)
                else if y.Err? then r == Err(y.code)
                else r.Ok?
  {
    FieldCapacities(|EntryLines(h.entries)|);
  }

  // With extended data, y holds what the callback made of the header's name.
  predicate NamedBy(h: Hdr, d: Block, callback: Callback, y: Extra)
    requires ValidBlock(h.blk) && ValidBlock(d)
  {
    h.entries != [] ==>
      var name := GetString(SlotOf(h, Name), Name);
      name.Ok? && CallFor(callback, d, name.value, FileName) == Ok(NameFields(y.name, y.prefix))
  }

  lemma ExtendedUses(h: Hdr, d: Block, callback: Callback, sums: Sums, s: string) returns (x: Extra, y: Extra)
    requires ValidBlock(h.blk) && PrintableEntries(h.entries) && ValidBlock(d) && ValidSums(sums)
    requires WriteExtended(h, d, callback, sums) == Ok(s)
    ensures ValidExtra(x) && ValidExtra(y) && WriteBlocks(h, d, x, y) == Ok(s) && NamedBy(h, d, callback, y)
  {
    var name := GetString(SlotOf(h, Name), Name).value;
    x := ExtraOf(CallFor(callback, d, name, XhdrName).value, sums.forXhdr);
    y := ExtraOf(CallFor(callback, d, name, FileName).value, sums.forFile);
  }

  /** A successful write, with what the callback returned for the block of the file. */
  lemma WriteUses(h: Hdr, defaults: Option<Hdr>, callback: Callback, sums: Sums, s: string)
    returns (x: Extra, y: Extra)
    requires ValidBlock(h.blk) && PrintableEntries(h.entries) && ValidDefaults(defaults) && ValidSums(sums)
    requires h.entries == [] ==> defaults.Some?
    requires Write(h, defaults, callback, sums) == Ok(s)
    ensures defaults.Some? && ValidExtra(x) && ValidExtra(y)
    ensures WriteBlocks(h, defaults.value.blk, x, y) == Ok(s) && NamedBy(h, defaults.value.blk, callback, y)
  {
    var d := defaults.value.blk;
    if h.entries == [] {
      x := Extra(d[Name], d[Prefix], sums.forFile);
      y := x;
    } else {
      x, y := ExtendedUses(h, d, callback, sums, s);
    }
  }

  // ------------------------------------------------------------ ph_load_pax_hdr

  function LoadedBlock(s: string): (b: Block)
    requires |s| >= BLOCK
    ensures ValidBlock(b)
  {
    map f: Field | true :: BlockField(s, f)
  }

  // The extended data and the standard block behind it.
  function LoadParts(data: string, std: string): Result<Hdr>
    requires |std| >= BLOCK
  {
    if IsPaxHdr(std) != Ok(Standard) then Err(PX_ERROR_INVALID_HEADER)
    else
      match ParseAll(data, [])
      case Err(code) => Err(code)
      case Ok(entries) => Ok(Hdr(LoadedBlock(std), entries))
  }

  /** ph_load_pax_hdr into a new header. */
  function Load(buf: string): Result<Hdr>
    requires |buf| >= BLOCK
  {
    match IsPaxHdr(buf)
    case Err(code) => Err(code)
    case Ok(Standard) => Ok(Hdr(LoadedBlock(buf), []))
    case Ok(ExtendedBy(n)) =>
      if n + BLOCK != |buf| then Err(PX_ERROR_INVALID_BUFFER)
      else LoadParts(buf[BLOCK..n], buf[n..])
  }

  /** ph_load_pax_hdr into any header: the status, and what the header is afterwards.
      Pairs that are there already stay. */
  function LoadRun(h: Hdr, buf: string): (int, Hdr)
    requires |buf| >= BLOCK
  {
    match IsPaxHdr(buf)
    case Err(code) => (code, h)
    case Ok(Standard) => (PX_SUCCESS_STD_HEADER, Hdr(LoadedBlock(buf), h.entries))
    case Ok(ExtendedBy(n)) =>
      if n + BLOCK != |buf| then (PX_ERROR_INVALID_BUFFER, h)
      else LoadRunParts(h, buf[BLOCK..n], buf[n..])
  }

  function LoadRunParts(h: Hdr, data: string, std: string): (int, Hdr)
    requires |std| >= BLOCK
  {
    if IsPaxHdr(std) != Ok(Standard) then (PX_ERROR_INVALID_HEADER, h)
    else
      var (status, parsed) := ParseRun(data, h.entries);
      (if data == "" then PX_SUCCESS_STD_HEADER else status, Hdr(LoadedBlock(std), parsed))
  }

  /** A file that begins with a standard block loads as that block. */
  lemma StandardLoads(buf: string)
    requires |buf| >= BLOCK && IsStandard(buf)
    ensures Load(buf) == Ok(Hdr(LoadedBlock(buf), []))
  {
    StandardIff(buf);
  }

  /** One that begins with a block for extended data loads, as this header, if and only if
      it has the length announced and holds a run of lines and then a standard block. */
  lemma ExtendedLoadsIff(buf: string, size: nat, h: Hdr)
    requires |buf| >= BLOCK && IsExtended(buf, size)
    ensures Load(buf) == Ok(h) <==> |buf| == RoundToBlock(size) + 1024 && HoldsRun(buf, h)
  {
    var n := RoundToBlock(size) + 512;
    ExtendedSays(buf, size);
    LoadOfExtended(buf, n);
    if |buf| == n + 512 { HoldsRunIff(buf, n, h); }
  }

  lemma HoldsRunIff(buf: string, n: nat, h: Hdr)
    requires 512 <= n && n + 512 == |buf|
    ensures LoadParts(buf[512..n], buf[n..]) == Ok(h) <==> HoldsRun(buf, h)
  {
    PartsLoadIff(buf[512..n], buf[n..], h);
  }

  /** And no other file loads. */
  lemma OthersDoNotLoad(buf: string)
    requires |buf| >= BLOCK && !IsStandard(buf) && forall size: nat :: !IsExtended(buf, size)
    ensures Load(buf).Err?
  {
    StandardIff(buf);
    if IsPaxHdr(buf).Ok? {
      var size := ExtendedIsThere(buf, IsPaxHdr(buf).value.additional);
    }
  }

  // Between the blocks a run of lines, and the last block a standard one.
  ghost predicate HoldsRun(buf: string, h: Hdr)
    requires |buf| >= 1024
  {
    var data, std := buf[512..|buf| - 512], buf[|buf| - 512..];
    IsStandard(std) && h.blk == LoadedBlock(std) && IsRun(data, h.entries)
  }

  lemma PartsLoadIff(data: string, std: string, h: Hdr)
    requires |std| >= BLOCK
    ensures LoadParts(data, std) == Ok(h) <==> IsStandard(std) && h.blk == LoadedBlock(std) && IsRun(data, h.entries)
  {
    StandardIff(std);
    RunIff(data, h.entries);
  }

  /** A file with extended data that does not have the announced length is refused, and one
      whose last block is not a standard one. */
  lemma LoadFailures(buf: string, size: nat)
    requires |buf| >= BLOCK && IsExtended(buf, size)
    ensures |buf| != RoundToBlock(size) + 1024 ==> Load(buf) == Err(-110)
    ensures |buf| == RoundToBlock(size) + 1024 && !IsStandard(buf[|buf| - 512..]) ==> Load(buf) == Err(-106)
  {
    var n := RoundToBlock(size) + 512;
    ExtendedSays(buf, size);
    LoadOfExtended(buf, n);
    if |buf| == n + 512 { StandardIff(buf[n..]); }
  }

  /** What a load that gets that far answers: the code for a standard header, also if there
      is no byte of extended data, or what reading the lines ends with. */
  lemma LoadStatus(h: Hdr, buf: string, size: nat)
    requires |buf| >= 1024 && IsExtended(buf, size) && |buf| == RoundToBlock(size) + 1024
    requires IsStandard(buf[|buf| - 512..])
    ensures LoadRun(h, buf).0 == if |buf| == 1024 then 2 else ParseRun(buf[512..|buf| - 512], h.entries).0
  {
    ExtendedSays(buf, size);
    var n := |buf| - 512;
    LoadRunOfExtended(h, buf, n);
    StandardStatus(h, buf[512..n], buf[n..]);
  }

  lemma LoadRunOfExtended(h: Hdr, buf: string, n: nat)
    requires |buf| >= 1024 && IsPaxHdr(buf) == Ok(ExtendedBy(n)) && n + BLOCK == |buf|
    ensures LoadRun(h, buf) == LoadRunParts(h, buf[BLOCK..n], buf[n..])
  {}

  lemma StandardStatus(h: Hdr, data: string, std: string)
    requires |std| >= BLOCK && IsStandard(std)
    ensures LoadRunParts(h, data, std).0 == if data == "" then 2 else ParseRun(data, h.entries).0
  {
    StandardIff(std);
  }

  lemma LoadOfExtended(buf: string, n: nat)
    requires |buf| >= BLOCK && IsPaxHdr(buf) == Ok(ExtendedBy(n))
    ensures n >= BLOCK
    ensures n + BLOCK != |buf| ==> Load(buf) == Err(-110)
    ensures n + BLOCK == |buf| ==> Load(buf) == LoadParts(buf[BLOCK..n], buf[n..])
  {
    var size := ExtendedIsThere(buf, n);
  }

  lemma {:induction false} ParseRunStatus(buf: string, list: seq<Entry>)
    ensures ParseRun(buf, list).0 <= PX_SUCCESS
    decreases |buf|
  {
    if buf != "" && ParseLine(buf).Record? {
      var p := ParseLine(buf);
      ParseRunStatus(buf[p.len..], [Entry(p.keyword, FromLine(buf[..p.len], p.text))] + list);
    }
  }

  /** The error codes of ph_is_pax_hdr are negative. */
  lemma KindFails(s: string)
    requires |s| >= BLOCK
    ensures IsPaxHdr(s).Err? ==> IsPaxHdr(s).code < 0
  {}

  // Loading the parts, with and without old pairs.
  lemma LoadRunPartsAre(h: Hdr, data: string, std: string)
    requires |std| >= BLOCK
    ensures var (status, r) := LoadRunParts(Hdr(h.blk, []), data, std);
            && LoadRunParts(h, data, std) == (status, Hdr(r.blk, r.entries + h.entries))
            && LoadParts(data, std) == if status >= 0 then Ok(r) else Err(status)
  {
    assert [] + h.entries == h.entries;
    ParseRunAdds(data, [], h.entries);
    ParseRunStatus(data, []);
  }

  /** Into a header without pairs this is Load; into any other, the pairs of the file
      come on top of the old ones, and the rest is the same. */
  lemma LoadRunIsLoad(h: Hdr, buf: string)
    requires |buf| >= BLOCK
    ensures var (status, r) := LoadRun(Hdr(h.blk, []), buf);
            && LoadRun(h, buf) == (status, Hdr(r.blk, r.entries + h.entries))
            && Load(buf) == if status >= 0 then Ok(r) else Err(status)
  {
    KindFails(buf);
    assert [] + h.entries == h.entries;
    match IsPaxHdr(buf)
    case Ok(ExtendedBy(n)) =>
      if n + BLOCK == |buf| { LoadRunPartsAre(h, buf[BLOCK..n], buf[n..]); }
    case _ =>
  }

  lemma {:induction false} NewestOver(above: seq<Entry>, below: seq<Entry>, keyword: string)
    ensures Newest(above + below, keyword)
            == if Newest(above, keyword).Some? then Newest(above, keyword) else Newest(below, keyword)
  {
    if above == [] {
      assert above + below == below;
    } else {
      NewestOver(above[1..], below, keyword);
      assert (above + below)[1..] == above[1..] + below;
    }
  }

  /** A getter sees what is in the file if and only if the file has a pair for the
      field, or the header had none: old pairs shine through a load. */
  lemma OldPairsShineThrough(h: Hdr, buf: string, f: Field)
    requires |buf| >= BLOCK && Load(buf).Ok? && f in Load(buf).value.blk
    ensures var r := LoadRun(h, buf).1;
            && f in r.blk
            && (SlotOf(r, f) == SlotOf(Load(buf).value, f)
                <==> Keyword(f).None? || Newest(Load(buf).value.entries, Keyword(f).value).Some?
                     || Newest(h.entries, Keyword(f).value).None?)
  {
    LoadRunIsLoad(h, buf);
    if Keyword(f).Some? { NewestOver(Load(buf).value.entries, h.entries, Keyword(f).value); }
  }

  // ------------------------------------------------------------ round trip

  // A pair a setter makes is written and read again.
  lemma TypedIsRereadable(keyword: string, v: PaxValue)
    requires ValidValue(v) && IsCString(keyword) && GoodKey(keyword)
    ensures Rereadable(Entry(keyword, Typed(v)))
  {}

  lemma FirstOfAll(entries: seq<Entry>) returns (e: Entry, rest: seq<Entry>)
    requires entries != [] && AllRereadable(entries)
    ensures entries == [e] + rest && Rereadable(e) && AllRereadable(rest)
    ensures EntryLines(entries) == EntryLines(rest) + LineOf(e.keyword, e.origin)
  {
    e, rest := entries[0], entries[1..];
    assert e in entries;
  }

  // Lines whose total fits fit each.
  lemma {:induction false} LinesFit(entries: seq<Entry>)
    requires AllRereadable(entries) && |EntryLines(entries)| <= U64_MAX
    ensures AllSound(entries) && AllGoodKeys(entries)
    ensures entries != [] ==> EntryLines(entries) != ""
    decreases |entries|
  {
    if entries != [] {
      var e, rest := FirstOfAll(entries);
      LinesFit(rest);
      LineIsNotEmpty(e);
      OneMoreFits(e, rest);
    }
  }

  lemma OneMoreFits(e: Entry, rest: seq<Entry>)
    requires Rereadable(e) && |LineOf(e.keyword, e.origin)| <= U64_MAX && AllSound(rest) && AllGoodKeys(rest)
    ensures AllSound([e] + rest) && AllGoodKeys([e] + rest)
  {}

  lemma ExtendedReadsBack(entries: seq<Entry>, padding: nat)
    requires AllRereadable(entries) && |EntryLines(entries)| <= U64_MAX
    ensures ParseAll(EntryLines(entries) + Padding(padding), []) == Ok(ReloadedAll(entries))
  {
    LinesFit(entries);
    XheaderRoundTrip(entries, padding);
  }

  // The block of a header that ph_create_hdr made.
  predicate Marked(b: Block)
    requires ValidBlock(b)
  {
    b[Magic] == "ustar\0" && b[Version] == "00"
  }

  predicate IsFileType(c: char) {
    '0' <= c <= '7'
  }

  lemma StandardKind(t: string, size: string)
    requires |t| == 1
    ensures KindOf("ustar\0", "00", t, size) == Ok(Standard) <==> IsFileType(t[0])
  {}

  lemma ExtendedKind(n: nat)
    requires Fits(n, Width(Size))
    ensures KindOf("ustar\0", "00", "x", OctalText(n, Width(Size)) + "\0") == Ok(ExtendedBy(RoundToBlock(n) + BLOCK))
  {
    SizeReads(n);
  }

  lemma SizeReads(n: nat)
    requires Fits(n, Width(Size))
    ensures n <= U64_MAX && ParseSize(Octal, CText(OctalText(n, Width(Size)) + "\0")) == Ok(n)
  {
    ScanOctal(n, 12);
    FitsIff(n, 12);
    assert Pow(Octal, 4) == 0x1000;
    assert Pow(Octal, 8) == 0x100_0000;
    assert Pow(Octal, 11) == 0x2_0000_0000;
  }

  lemma LoadsBlock(b: Block)
    requires ValidBlock(b)
    ensures LoadedBlock(BlockBytes(b)) == b
  {
    assert BlockBytes(b) + "" == BlockBytes(b);
    forall f: Field ensures BlockField(BlockBytes(b), f) == b[f] {
      BlockRoundTrip(b, "", f);
    }
  }

  lemma WrittenMarks(h: Hdr, d: Block, asXhdr: bool, x: Extra)
    requires ValidBlock(h.blk) && ValidBlock(d) && ValidExtra(x) && Marked(h.blk)
    ensures var b := WrittenBlock(h, d, asXhdr, x);
            && b[Magic] == "ustar\0" && b[Version] == "00"
            && b[Type] == if asXhdr then "x" else h.blk[Type]
  {
  }

  lemma FileBlockIsStandard(h: Hdr, d: Block, x: Extra)
    requires ValidBlock(h.blk) && ValidBlock(d) && ValidExtra(x) && Marked(h.blk)
    ensures IsPaxHdr(BlockBytes(WrittenBlock(h, d, false, x))) == Ok(Standard) <==> IsFileType(h.blk[Type][0])
  {
    var b := WrittenBlock(h, d, false, x);
    KindOfBlock(b, BlockBytes(b));
    WrittenMarks(h, d, false, x);
    StandardKind(b[Type], b[Size]);
  }

  // The first block of an extended header says how many bytes follow it.
  lemma XhdrBlockIsExtended(h: Hdr, d: Block, x: Extra, first: string, n: nat, s: string)
    requires ValidBlock(h.blk) && ValidBlock(d) && ValidExtra(x) && Marked(h.blk)
    requires Fits(n, Width(Size)) && first == BlockBytes(XhdrBlock(h, d, x, n))
    requires first <= s && |s| == RoundToBlock(n) + 2 * BLOCK
    ensures IsPaxHdr(s) == Ok(ExtendedBy(|s| - BLOCK))
  {
    KindOfBlock(XhdrBlock(h, d, x, n), s);
    WrittenMarks(h, d, true, x);
    ExtendedKind(n);
  }

  // Where the parts of an extended header end up.
  lemma PartsOf(x: string, lines: string, file: string)
    requires |x| == |file| == BLOCK
    ensures var s := Assembled(x, lines, file);
            && |s| == RoundToBlock(|lines|) + 2 * BLOCK
            && s[|s| - BLOCK..] == file
            && s[BLOCK..|s| - BLOCK] == lines + Padding(RoundToBlock(|lines|) - |lines|)
            && x <= s
            && |s| % BLOCK == 0 && (lines != "" ==> |s| >= 3 * BLOCK)
  {}

  // What ph_write_header puts together.
  lemma WrittenParts(h: Hdr, d: Block, forXhdr: Extra, forFile: Extra, s: string)
    requires ValidBlock(h.blk) && ValidBlock(d) && ValidExtra(forXhdr) && ValidExtra(forFile)
    requires AllRereadable(h.entries) && h.entries != [] && WriteBlocks(h, d, forXhdr, forFile) == Ok(s)
    ensures var lines := EntryLines(h.entries);
            && Fits(|lines|, Width(Size)) && lines != ""
            && s == Assembled(BlockBytes(XhdrBlock(h, d, forXhdr, |lines|)), lines,
                              BlockBytes(WrittenBlock(h, d, false, forFile)))
  {
    SizeReads(|EntryLines(h.entries)|);
    LinesFit(h.entries);
  }

  lemma AssembledFrom(x: string, lines: string, file: string, s: string)
    requires |x| == |file| == BLOCK && s == Assembled(x, lines, file)
    ensures |s| == RoundToBlock(|lines|) + 2 * BLOCK && x <= s
    ensures |s| % BLOCK == 0 && (lines != "" ==> |s| >= 3 * BLOCK)
  {
    PartsOf(x, lines, file);
  }

  // With extended data: the size, and what the first block says.
  lemma ExtendedSize(h: Hdr, d: Block, forXhdr: Extra, forFile: Extra, s: string)
    requires ValidBlock(h.blk) && ValidBlock(d) && ValidExtra(forXhdr) && ValidExtra(forFile)
    requires Marked(h.blk) && AllRereadable(h.entries) && h.entries != []
    requires WriteBlocks(h, d, forXhdr, forFile) == Ok(s)
    ensures |s| == HeaderSize(h) && |s| % BLOCK == 0 && |s| >= 3 * BLOCK
    ensures IsPaxHdr(s) == Ok(ExtendedBy(|s| - BLOCK))
  {
    WrittenParts(h, d, forXhdr, forFile, s);
    var lines, file := EntryLines(h.entries), BlockBytes(WrittenBlock(h, d, false, forFile));
    var first := BlockBytes(XhdrBlock(h, d, forXhdr, |lines|));
    AssembledFrom(first, lines, file, s);
    XhdrBlockIsExtended(h, d, forXhdr, first, |lines|, s);
  }

  // A header as the library makes, sets and loads them.
  predicate WellMade(h: Hdr) {
    ValidBlock(h.blk) && Marked(h.blk) && AllRereadable(h.entries)
  }

  predicate WriteArguments(h: Hdr, defaults: Option<Hdr>, sums: Sums) {
    ValidDefaults(defaults) && ValidSums(sums) && (h.entries == [] ==> defaults.Some?)
  }

  /** The size announced is the size written: one block, or a multiple of the block size
      not below three blocks; and the first block says how many bytes follow it. */
  lemma SizeAccounting(h: Hdr, defaults: Option<Hdr>, callback: Callback, sums: Sums, s: string)
    requires WellMade(h) && IsFileType(h.blk[Type][0]) && WriteArguments(h, defaults, sums)
    requires Write(h, defaults, callback, sums) == Ok(s)
    ensures |s| == HeaderSize(h) && |s| % BLOCK == 0
    ensures if h.entries == [] then |s| == BLOCK && IsPaxHdr(s) == Ok(Standard)
            else |s| >= 3 * BLOCK && IsPaxHdr(s) == Ok(ExtendedBy(|s| - BLOCK))
  {
    var x, y := WriteUses(h, defaults, callback, sums, s);
    if h.entries == [] {
      FileBlockIsStandard(h, defaults.value.blk, y);
    } else {
      ExtendedSize(h, defaults.value.blk, x, y, s);
    }
  }

  lemma LoadsParts(entries: seq<Entry>, padding: nat, b: Block)
    requires ValidBlock(b) && AllRereadable(entries) && |EntryLines(entries)| <= U64_MAX
    requires IsPaxHdr(BlockBytes(b)) == Ok(Standard)
    ensures LoadParts(EntryLines(entries) + Padding(padding), BlockBytes(b)) == Ok(Hdr(b, ReloadedAll(entries)))
  {
    LoadsBlock(b);
    ExtendedReadsBack(entries, padding);
  }

  lemma LoadsExtended(x: string, lines: string, file: string, s: string)
    requires |x| == |file| == BLOCK && s == Assembled(x, lines, file)
    requires |s| >= BLOCK && IsPaxHdr(s) == Ok(ExtendedBy(|s| - BLOCK))
    ensures Load(s) == LoadParts(lines + Padding(RoundToBlock(|lines|) - |lines|), file)
  {
    PartsOf(x, lines, file);
  }

  lemma LoadsStandard(b: Block)
    requires ValidBlock(b)
    ensures IsPaxHdr(BlockBytes(b)) == Ok(Standard) ==> Load(BlockBytes(b)) == Ok(Hdr(b, []))
    ensures IsPaxHdr(BlockBytes(b)) != Ok(Standard) ==> Load(BlockBytes(b)).Err?
  {
    LoadsBlock(b);
  }

  lemma LoadsWritten(h: Hdr, x: string, b: Block, s: string)
    requires |x| == BLOCK && ValidBlock(b) && AllRereadable(h.entries) && Fits(|EntryLines(h.entries)|, Width(Size))
    requires s == Assembled(x, EntryLines(h.entries), BlockBytes(b))
    requires |s| >= BLOCK && IsPaxHdr(s) == Ok(ExtendedBy(|s| - BLOCK))
    ensures IsPaxHdr(BlockBytes(b)) == Ok(Standard) ==> Load(s) == Ok(Hdr(b, ReloadedAll(h.entries)))
    ensures IsPaxHdr(BlockBytes(b)) != Ok(Standard) ==> Load(s).Err?
  {
    var lines := EntryLines(h.entries);
    SizeReads(|lines|);
    LoadsExtended(x, lines, BlockBytes(b), s);
    if IsPaxHdr(BlockBytes(b)) == Ok(Standard) {
      LoadsParts(h.entries, RoundToBlock(|lines|) - |lines|, b);
    }
  }

  lemma BlocksThenLoad(h: Hdr, d: Block, x: Extra, y: Extra, s: string)
    requires WellMade(h) && ValidBlock(d) && ValidExtra(x) && ValidExtra(y) && WriteBlocks(h, d, x, y) == Ok(s)
    ensures |s| >= BLOCK
    ensures IsFileType(h.blk[Type][0]) ==>
              Load(s) == Ok(Hdr(WrittenBlock(h, d, false, y), ReloadedAll(h.entries)))
    ensures !IsFileType(h.blk[Type][0]) ==> Load(s).Err?
  {
    var b := WrittenBlock(h, d, false, y);
    FileBlockIsStandard(h, d, y);
    if h.entries == [] {
      LoadsStandard(b);
    } else {
      ExtendedSize(h, d, x, y, s);
      WrittenParts(h, d, x, y, s);
      LoadsWritten(h, BlockBytes(XhdrBlock(h, d, x, |EntryLines(h.entries)|)), b, s);
    }
  }

  /** What was written loads if and only if its type is a file's, and then yields the
      written file block and every entry, in order, as text. */
  lemma WriteThenLoad(h: Hdr, defaults: Option<Hdr>, callback: Callback, sums: Sums, s: string) returns (y: Extra)
    requires WellMade(h) && WriteArguments(h, defaults, sums) && Write(h, defaults, callback, sums) == Ok(s)
    ensures |s| >= BLOCK && (Load(s).Ok? <==> IsFileType(h.blk[Type][0]))
    ensures defaults.Some? && ValidExtra(y) && NamedBy(h, defaults.value.blk, callback, y)
    ensures Load(s).Ok? ==>
              Load(s).value == Hdr(WrittenBlock(h, defaults.value.blk, false, y), ReloadedAll(h.entries))
  {
    var x;
    x, y := WriteUses(h, defaults, callback, sums, s);
    BlocksThenLoad(h, defaults.value.blk, x, y, s);
  }

  // ------------------------------------------------------------ the written blocks

  // The fields that are always merged with the defaults.
  predicate IsMerged(f: Field) {
    f in {Mode, Uid, Gid, Size, Mtime, Uname, Gname, Devmajor, Devminor}
  }

  // The header's own field, or the default if it is empty.
  predicate TakenFrom(t: string, own: string, default: string) {
    own != "" && t == if own[0] != '\0' then own else default
  }

  /** The block of a header without extended data: every field that is not empty, the
      defaults for the others, and always the default prefix. */
  lemma PlainBlock(h: Hdr, d: Hdr, callback: Callback, sums: Sums, s: string, f: Field)
    requires ValidBlock(h.blk) && h.entries == [] && ValidBlock(d.blk) && ValidSums(sums)
    requires Write(h, Some(d), callback, sums) == Ok(s)
    ensures |s| == 512
    ensures IsMerged(f) || f in {Name, Linkname, Magic} ==> TakenFrom(LoadedBlock(s)[f], h.blk[f], d.blk[f])
    ensures f == Type ==> LoadedBlock(s)[f] == h.blk[f]
    ensures f == Prefix ==> LoadedBlock(s)[f] == d.blk[f]
    ensures f == Chksum ==> LoadedBlock(s)[f] == sums.forFile
    ensures f == Version ==> LoadedBlock(s)[f] == if '\0' in h.blk[f] then d.blk[f] else h.blk[f]
  {
    var x := Extra(d.blk[Name], d.blk[Prefix], sums.forFile);
    LoadsBlock(WrittenBlock(h, d.blk, false, x));
    PlainField(h, d.blk, x, f);
  }

  lemma PlainField(h: Hdr, d: Block, x: Extra, f: Field)
    requires ValidBlock(h.blk) && ValidBlock(d) && ValidExtra(x)
    ensures var t := WrittenField(h.blk, false, d, false, x, f);
            && (IsMerged(f) || f in {Name, Linkname, Magic} ==> TakenFrom(t, h.blk[f], d[f]))
            && (f == Type ==> t == h.blk[f]) && (f == Prefix ==> t == d[f]) && (f == Chksum ==> t == x.chksum)
            && (f == Version ==> t == if '\0' in h.blk[f] then d[f] else h.blk[f])
  {
    assert Width(f) == |h.blk[f]|;
    if f == Version { assert h.blk[f] == [h.blk[f][0], h.blk[f][1]]; }
  }

  // The two names that the callback made.
  predicate NamesAre(h: Hdr, d: Hdr, callback: Callback, forXhdr: Names, forFile: Names)
    requires ValidBlock(h.blk) && ValidBlock(d.blk)
  {
    var name := GetString(SlotOf(h, Name), Name);
    && name.Ok?
    && callback(NameFields(d.blk[Name], d.blk[Prefix]), name.value, XhdrName) == Ok(forXhdr)
    && callback(NameFields(d.blk[Name], d.blk[Prefix]), name.value, FileName) == Ok(forFile)
  }

  lemma NamesUsed(h: Hdr, d: Hdr, callback: Callback, sums: Sums, s: string) returns (forXhdr: Names, forFile: Names)
    requires WellMade(h) && h.entries != [] && ValidBlock(d.blk) && ValidSums(sums)
    requires Write(h, Some(d), callback, sums) == Ok(s)
    ensures NamesAre(h, d, callback, forXhdr, forFile)
    ensures WriteBlocks(h, d.blk, ExtraOf(forXhdr, sums.forXhdr), ExtraOf(forFile, sums.forFile)) == Ok(s)
  {
    var name := GetString(SlotOf(h, Name), Name).value;
    forXhdr := CallFor(callback, d.blk, name, XhdrName).value;
    forFile := CallFor(callback, d.blk, name, FileName).value;
  }

  // Where the first and the last block are.
  lemma BlocksUsed(h: Hdr, d: Block, x: Extra, y: Extra, s: string)
    requires WellMade(h) && h.entries != [] && ValidBlock(d) && ValidExtra(x) && ValidExtra(y)
    requires WriteBlocks(h, d, x, y) == Ok(s)
    ensures |s| >= 1024 && Fits(|EntryLines(h.entries)|, 12)
    ensures LoadedBlock(s) == XhdrBlock(h, d, x, |EntryLines(h.entries)|)
    ensures LoadedBlock(s[|s| - 512..]) == WrittenBlock(h, d, false, y)
  {
    WrittenParts(h, d, x, y, s);
    var lines, file := EntryLines(h.entries), WrittenBlock(h, d, false, y);
    var first := XhdrBlock(h, d, x, |lines|);
    PartsOf(BlockBytes(first), lines, BlockBytes(file));
    LoadsBlock(file);
    LoadsFront(first, s);
  }

  lemma LoadsFront(b: Block, s: string)
    requires ValidBlock(b) && BlockBytes(b) <= s
    ensures LoadedBlock(s) == b
  {
    assert s == BlockBytes(b) + s[BLOCK..];
    forall f: Field ensures BlockField(s, f) == b[f] {
      BlockRoundTrip(b, s[BLOCK..], f);
    }
  }

  // A field of either block of a header with extended data: the name and the prefix are
  // the callback's, and the link name is the default's.
  predicate HasField(t: string, f: Field, h: Hdr, d: Block, n: Names, kind: string, chksum: string)
    requires ValidBlock(h.blk) && ValidBlock(d)
  {
    && (IsMerged(f) && f != Size ==> TakenFrom(t, h.blk[f], d[f]))
    && (f == Name ==> t == n.name) && (f == Prefix ==> t == n.prefix) && (f == Linkname ==> t == d[f])
    && (f == Type ==> t == kind) && (f == Chksum ==> t == chksum)
    && (f == Magic ==> t == "ustar\0") && (f == Version ==> t == "00")
  }

  lemma FieldHas(h: Hdr, d: Block, asXhdr: bool, n: Names, chksum: string, f: Field)
    requires ValidBlock(h.blk) && Marked(h.blk) && ValidBlock(d) && |chksum| == Width(Chksum)
    ensures HasField(WrittenField(h.blk, true, d, asXhdr, ExtraOf(n, chksum), f), f, h, d, n,
                     if asXhdr then "x" else h.blk[Type], chksum)
  {
    assert Width(f) == |h.blk[f]|;
  }

  lemma WrittenHasField(h: Hdr, d: Block, asXhdr: bool, n: Names, chksum: string, f: Field)
    requires WellMade(h) && h.entries != [] && ValidBlock(d) && |chksum| == Width(Chksum)
    ensures HasField(WrittenBlock(h, d, asXhdr, ExtraOf(n, chksum))[f], f, h, d, n,
                     if asXhdr then "x" else h.blk[Type], chksum)
  {
    FieldHas(h, d, asXhdr, n, chksum, f);
  }

  lemma WrittenSize(h: Hdr, d: Block, x: Extra)
    requires WellMade(h) && ValidBlock(d) && ValidExtra(x)
    ensures TakenFrom(WrittenBlock(h, d, false, x)[Size], h.blk[Size], d[Size])
  {}

  // Eleven octal digits and a NUL.
  predicate IsOctal(t: string, n: nat) {
    |t| == 12 && t[11] == '\0' && AllDigits(Octal, t[..11]) && Value(Octal, t[..11]) == n
  }

  lemma XhdrSize(h: Hdr, d: Block, x: Extra, n: nat)
    requires ValidBlock(h.blk) && ValidBlock(d) && ValidExtra(x) && Fits(n, 12)
    ensures IsOctal(XhdrBlock(h, d, x, n)[Size], n)
  {
    OctalTextIs(n, 12);
    assert (OctalText(n, 12) + "\0")[..11] == OctalText(n, 12);
  }

  /** The last block of a header with extended data. */
  lemma FileBlock(h: Hdr, d: Hdr, callback: Callback, sums: Sums, s: string, f: Field) returns (x: Names, y: Names)
    requires WellMade(h) && h.entries != [] && ValidBlock(d.blk) && ValidSums(sums)
    requires Write(h, Some(d), callback, sums) == Ok(s)
    ensures |s| >= 1024 && NamesAre(h, d, callback, x, y)
    ensures HasField(LoadedBlock(s[|s| - 512..])[f], f, h, d.blk, y, h.blk[Type], sums.forFile)
    ensures TakenFrom(LoadedBlock(s[|s| - 512..])[Size], h.blk[Size], d.blk[Size])
  {
    x, y := NamesUsed(h, d, callback, sums, s);
    BlocksUsed(h, d.blk, ExtraOf(x, sums.forXhdr), ExtraOf(y, sums.forFile), s);
    WrittenHasField(h, d.blk, false, y, sums.forFile, f);
    WrittenSize(h, d.blk, ExtraOf(y, sums.forFile));
  }

  /** Its first block: of type 'x', with the size of the lines in octal digits and the
      callback's other name. */
  lemma FirstBlock(h: Hdr, d: Hdr, callback: Callback, sums: Sums, s: string, f: Field) returns (x: Names, y: Names)
    requires WellMade(h) && h.entries != [] && ValidBlock(d.blk) && ValidSums(sums)
    requires Write(h, Some(d), callback, sums) == Ok(s)
    ensures |s| >= 1024 && NamesAre(h, d, callback, x, y)
    ensures HasField(LoadedBlock(s)[f], f, h, d.blk, x, "x", sums.forXhdr)
    ensures IsOctal(LoadedBlock(s)[Size], |EntryLines(h.entries)|)
  {
    x, y := NamesUsed(h, d, callback, sums, s);
    BlocksUsed(h, d.blk, ExtraOf(x, sums.forXhdr), ExtraOf(y, sums.forFile), s);
    WrittenHasField(h, d.blk, true, x, sums.forXhdr, f);
    XhdrSize(h, d.blk, ExtraOf(x, sums.forXhdr), |EntryLines(h.entries)|);
  }

  // ------------------------------------------------------------ any file

  // Bytes recognised as a standard block.
  lemma StandardIsMarked(std: string)
    requires |std| >= BLOCK && IsPaxHdr(std) == Ok(Standard)
    ensures Marked(LoadedBlock(std)) && IsFileType(LoadedBlock(std)[Type][0])
  {}

  lemma LoadPartsIsWellMade(data: string, std: string, h: Hdr)
    requires |std| >= BLOCK && LoadParts(data, std) == Ok(h)
    ensures WellMade(h) && IsFileType(h.blk[Type][0]) && AllFromLines(h.entries)
    ensures EntryLines(h.entries) <= data
  {
    StandardIsMarked(std);
    ParsedList(data, h.entries);
  }

  /** Whatever file a header was loaded from, it is well made; its pairs are the lines as
      they stand in the file. */
  lemma LoadedIsWellMade(buf: string, h: Hdr)
    requires |buf| >= BLOCK && Load(buf) == Ok(h)
    ensures WellMade(h) && IsFileType(h.blk[Type][0]) && AllFromLines(h.entries)
    ensures EntryLines(h.entries) <= buf[BLOCK..]
  {
    if IsPaxHdr(buf) == Ok(Standard) {
      StandardIsMarked(buf);
    } else {
      var n := IsPaxHdr(buf).value.additional;
      LoadOfExtended(buf, n);
      LoadPartsIsWellMade(buf[BLOCK..n], buf[n..], h);
      PrefixOfRest(EntryLines(h.entries), buf, n);
    }
  }

  lemma PrefixOfRest(lines: string, buf: string, n: nat)
    requires BLOCK <= n <= |buf| && lines <= buf[BLOCK..n]
    ensures lines <= buf[BLOCK..]
  {}

  /** Extended data that is loaded is written back byte for byte, however its lines spell
      their lengths: behind the first block stand the n bytes that were read, then zeros
      to the block's end; and they load as the same pairs. */
  lemma LoadThenWrite(buf: string, h: Hdr, d: Hdr, callback: Callback, sums: Sums, s: string) returns (n: nat)
    requires |buf| >= BLOCK && Load(buf) == Ok(h) && h.entries != []
    requires ValidBlock(d.blk) && ValidSums(sums)
    requires (LoadedIsWellMade(buf, h); Write(h, Some(d), callback, sums) == Ok(s))
    ensures 0 < n <= |buf| - BLOCK && HoldsData(s, buf[BLOCK..][..n])
    ensures Load(s).Ok? && Load(s).value.entries == h.entries
  {
    LoadedIsWellMade(buf, h);
    WrittenLines(h, d, callback, sums, s);
    WrittenPairs(h, d, callback, sums, s);
    n := |EntryLines(h.entries)|;
    assert EntryLines(h.entries) == buf[BLOCK..][..n];
  }

  // Between the two blocks stand the lines, then zeros.
  predicate HoldsData(s: string, lines: string) {
    && |s| == RoundToBlock(|lines|) + 2 * BLOCK
    && s[BLOCK..|s| - BLOCK] == lines + Padding(RoundToBlock(|lines|) - |lines|)
  }

  lemma WrittenLines(h: Hdr, d: Hdr, callback: Callback, sums: Sums, s: string)
    requires WellMade(h) && h.entries != [] && ValidBlock(d.blk) && ValidSums(sums)
    requires Write(h, Some(d), callback, sums) == Ok(s)
    ensures EntryLines(h.entries) != "" && HoldsData(s, EntryLines(h.entries))
  {
    var x, y := WriteUses(h, Some(d), callback, sums, s);
    LinesAreThere(h, d.blk, x, y, s);
  }

  lemma WrittenPairs(h: Hdr, d: Hdr, callback: Callback, sums: Sums, s: string)
    requires WellMade(h) && IsFileType(h.blk[Type][0]) && AllFromLines(h.entries)
    requires WriteArguments(h, Some(d), sums) && Write(h, Some(d), callback, sums) == Ok(s)
    ensures |s| >= BLOCK && Load(s).Ok? && Load(s).value.entries == h.entries
  {
    var y := WriteThenLoad(h, Some(d), callback, sums, s);
    ReloadedIsSame(h.entries);
  }

  lemma LinesAreThere(h: Hdr, d: Block, x: Extra, y: Extra, s: string)
    requires WellMade(h) && ValidBlock(d) && ValidExtra(x) && ValidExtra(y) && h.entries != []
    requires WriteBlocks(h, d, x, y) == Ok(s)
    ensures EntryLines(h.entries) != "" && HoldsData(s, EntryLines(h.entries))
  {
    WrittenParts(h, d, x, y, s);
    var lines := EntryLines(h.entries);
    PartsOf(BlockBytes(XhdrBlock(h, d, x, |lines|)), lines, BlockBytes(WrittenBlock(h, d, false, y)));
  }
}
