/** The header as the library keeps it: a block and a linked list, changed in place by
    the setters. */
module PaxObject {
  import opened Common
  import opened PaxErrors
  import opened PaxUtil
  import opened PaxRecord
  import opened PaxXhdr
  import opened PaxHeader
  import opened PaxHeaderFile

  lemma {:induction false} EntriesOfLast(nodes: seq<PaxPair>, last: PaxPair)
    ensures EntriesOf(nodes + [last]) == EntriesOf(nodes) + [Entry(last.keyword, last.origin)]
  {
    if nodes != [] {
      EntriesOfLast(nodes[1..], last);
      assert (nodes + [last])[1..] == nodes[1..] + [last];
    }
  }

  lemma {:induction false} WithoutLast(entries: seq<Entry>, last: Entry, keyword: string)
    ensures Without(entries + [last], keyword)
            == Without(entries, keyword) + if last.keyword == keyword then [] else [last]
  {
    if entries == [] {
      assert entries + [last] == [last];
    } else {
      var rest, first := entries[1..], if entries[0].keyword == keyword then [] else [entries[0]];
      var end := if last.keyword == keyword then [] else [last];
      WithoutLast(rest, last, keyword);
      assert (entries + [last])[1..] == rest + [last];
      assert first + (Without(rest, keyword) + end) == first + Without(rest, keyword) + end;
    }
  }

  /** Taking the matches out of the list takes their entries out. */
  lemma {:induction false} OthersAreWithout(nodes: seq<PaxPair>, keyword: string)
    ensures EntriesOf(Others(nodes, keyword)) == Without(EntriesOf(nodes), keyword)
  {
    if nodes != [] {
      var n := |nodes| - 1;
      var before, last := nodes[..n], nodes[n];
      OthersAreWithout(before, keyword);
      assert nodes == before + [last];
      EntriesOfLast(before, last);
      WithoutLast(EntriesOf(before), Entry(last.keyword, last.origin), keyword);
      if last.keyword == keyword {
        assert Others(nodes, keyword) == Others(before, keyword);
      } else {
        EntriesOfLast(Others(before, keyword), last);
      }
    }
  }

  function OctalPlace(f: Field, n: nat, v: PaxValue): Place {
    if Fits(n, Width(f)) then InBlock(OctalText(n, Width(f)) + "\0") else Extended(v)
  }

  /** The newest entry of a keyword is the first match in the list. */
  lemma {:induction false} NewestIsFirst(nodes: seq<PaxPair>, keyword: string)
    ensures Newest(EntriesOf(nodes), keyword)
            == if Matching(nodes, keyword) == [] then None else Some(Matching(nodes, keyword)[0].origin)
  {
    if nodes != [] {
      NewestIsFirst(nodes[1..], keyword);
      assert nodes == [nodes[0]] + nodes[1..];
      PutPushes(nodes[0], nodes[1..], keyword);
      assert EntriesOf(nodes)[1..] == EntriesOf(nodes[1..]);
    }
  }

  class Header {
    var blk: Block
    const xhdr: Xhdr

    ghost predicate Valid()
      reads this, xhdr, xhdr.nodes
    {
      ValidBlock(blk) && xhdr.Valid()
    }

    ghost function Value(): Hdr
      reads this, xhdr
    {
      Hdr(blk, EntriesOf(xhdr.nodes))
    }

    /** ph_create_hdr */
    constructor ()
      ensures Valid() && Value() == NewHdr() && fresh(xhdr)
    {
      blk := NewHdr().blk;
      xhdr := new Xhdr();
    }

    // Remove the old pairs of a field.
    method Clear(f: Field)
      requires Valid()
      modifies xhdr, xhdr.nodes`next
      ensures Valid() && Value() == Hdr(old(blk), Cleared(old(Value()), f))
      ensures forall n <- xhdr.nodes :: n in old(xhdr.nodes)
    {
      if Keyword(f).Some? {
        OthersAreWithout(xhdr.nodes, Keyword(f).value);
        OthersAreOld(xhdr.nodes, Keyword(f).value);
        var _, _, _ := xhdr.RemoveAll(Keyword(f).value);
      }
    }

    // The value goes to extended data if the field has a keyword.
    method Extend(f: Field, v: PaxValue) returns (status: int)
      requires Valid()
      modifies this, xhdr
      ensures Valid() && (status, Value()) == Fill(old(Value()), f, Extended(v))
      ensures forall n <- xhdr.nodes :: n in old(xhdr.nodes) || fresh(n)
    {
      blk := blk[f := Padding(Width(f))];
      if Keyword(f).None? {
        return PX_ERROR_WONT_FIT;
      }
      ghost var before := xhdr.nodes;
      var pair := new PaxPair(Keyword(f).value, Typed(v));
      var _ := xhdr.PutPair(pair, false);
      assert xhdr.nodes[1..] == before;
      return PX_SUCCESS;
    }

    /** _ph_set_string: the block takes strings up to the field's width. */
    method SetString(f: Field, src: string) returns (status: int)
      requires Valid()
      modifies this, xhdr, xhdr.nodes`next
      ensures Valid() && (status, Value()) == Set(old(Value()), f, Setting.SetString(src))
      ensures forall n <- xhdr.nodes :: n in old(xhdr.nodes) || fresh(n)
    {
      Clear(f);
      if Width(f) == 0 || |src| > Width(f) {
        status := Extend(f, Text(src));
      } else {
        blk := blk[f := Copied(src, Width(f))];
        status := PX_SUCCESS;
      }
    }

    /** _ph_set_unsigned */
    method SetUnsigned(f: Field, src: U64) returns (status: int)
      requires Valid()
      modifies this, xhdr, xhdr.nodes`next
      ensures Valid() && (status, Value()) == Set(old(Value()), f, Setting.SetUnsigned(src))
      ensures forall n <- xhdr.nodes :: n in old(xhdr.nodes) || fresh(n)
    {
      Clear(f);
      if Width(f) == 0 {
        status := Extend(f, U64(src));
      } else {
        status := PrintOctal(f, src, U64(src));
      }
    }

    /** _ph_set_signed */
    method SetSigned(f: Field, src: I64) returns (status: int)
      requires Valid()
      modifies this, xhdr, xhdr.nodes`next
      ensures Valid() && (status, Value()) == Set(old(Value()), f, Setting.SetSigned(src))
      ensures forall n <- xhdr.nodes :: n in old(xhdr.nodes) || fresh(n)
    {
      Clear(f);
      if Width(f) == 0 || src < 0 {
        status := Extend(f, I64(src));
      } else {
        status := PrintOctal(f, src, I64(src));
      }
    }

    /** _ph_set_time: nanoseconds and negative times need extended data. */
    method SetTime(f: Field, sec: I64, nsec: nat) returns (status: int)
      requires Valid()
      modifies this, xhdr, xhdr.nodes`next
      ensures Valid() && (status, Value()) == Set(old(Value()), f, Setting.SetTime(sec, nsec))
      ensures forall n <- xhdr.nodes :: n in old(xhdr.nodes) || fresh(n)
    {
      Clear(f);
      if Width(f) == 0 || nsec != 0 || sec < 0 {
        status := Extend(f, Time(sec, nsec));
      } else {
        status := PrintOctal(f, sec, Time(sec, nsec));
      }
    }

    /** ph_set_type */
    method SetType(c: char) returns (status: int)
      requires Valid()
      modifies this
      ensures Valid() && (status, Value()) == Set(old(Value()), Type, Setting.SetType(c))
    {
      blk := blk[Type := [c]];
      status := PX_SUCCESS;
    }

    /** What every ph_get function looks up: the newest pair of the field's keyword and
        the field of the block. */
    method Look(f: Field) returns (slot: Slot)
      requires Valid()
      ensures slot == SlotOf(Value(), f)
    {
      if Keyword(f).None? {
        return Slot(blk[f], None);
      }
      NewestIsFirst(xhdr.nodes, Keyword(f).value);
      var pairs := xhdr.GetPair(Keyword(f).value, false);
      return Slot(blk[f], if pairs == [] then None else Some(pairs[0].origin));
    }

    /** ph_get_header_size */
    method GetHeaderSize() returns (status: int, size: nat, exact: nat, padded: nat)
      requires Valid() && forall n <- xhdr.nodes :: n.Formatted()
      ensures PrintableEntries(Value().entries)
      ensures status == if AllMeasurable(xhdr.nodes) then PX_SUCCESS else PX_ERROR_RANGE
      ensures status == PX_SUCCESS ==> size == HeaderSize(Value()) && exact == |EntryLines(Value().entries)|
      ensures status == PX_SUCCESS && xhdr.list != null ==> padded == RoundToBlock(exact) && size == padded + 2 * BLOCK
    {
      assert AllPrintable(xhdr.nodes);
      LinesOfEntries(xhdr.nodes);
      if xhdr.list == null {
        return PX_SUCCESS, BLOCK, 0, 0;
      }
      status, exact, padded := xhdr.GetXheaderSize();
      if status != PX_SUCCESS {
        return status, 0, exact, padded;
      }
      size := padded + 2 * BLOCK;
    }

    /** ph_write_header: what Write gives, or an error and the size needed when the buffer
        is too small. */
    method WriteHeader(buffer: array<char>, defaults: Header?, callback: Callback, sums: Sums)
      returns (status: int, written: Option<nat>)
      requires Valid() && xhdr.Writable() && ValidSums(sums) && (defaults != null ==> defaults.Valid())
      requires xhdr.list == null ==> defaults != null
      modifies buffer, xhdr.nodes`headerLine
      ensures Value() == old(Value()) && PrintableEntries(Value().entries)
      ensures buffer.Length < HeaderSize(Value()) ==>
                status == PX_ERROR_WONT_FIT && written == Some(HeaderSize(Value()))
      ensures buffer.Length >= HeaderSize(Value()) ==>
                match Write(Value(), if defaults == null then None else Some(old(defaults.Value())), callback, sums)
                case Ok(s) => status == PX_SUCCESS && written == Some(|s|) && |s| <= buffer.Length && buffer[..|s|] == s
                case Err(code) => status == code && written == None
    {
      LinesOfEntries(xhdr.nodes);
      var _, size, exact, padded := GetHeaderSize();
      if buffer.Length < size {
        return PX_ERROR_WONT_FIT, Some(size);
      }
      if xhdr.list == null {
        WriteStandard(buffer, defaults.blk, sums.forFile);
        return PX_SUCCESS, Some(size);
      }
      if defaults == null {
        return PX_ERROR_REQUIRE_DEFAULTS, None;
      }
      if defaults.xhdr.list != null {
        return PX_ERROR_DEFAULTS_XHDR, None;
      }
      var blocks := MakeBlocks(defaults.blk, exact, callback, sums);
      status, written := Emit(buffer, blocks, padded, WriteExtended(Value(), defaults.blk, callback, sums));
    }

    // The block of a header without extended data.
    method WriteStandard(buffer: array<char>, d: Block, sum: string)
      requires Valid() && ValidBlock(d) && |sum| == Width(Chksum) && buffer.Length >= BLOCK && xhdr.list == null
      modifies buffer
      ensures var unused := Extra(d[Name], d[Prefix], sum);
              Value().entries == [] && WriteBlocks(Value(), d, unused, unused) == Ok(buffer[..BLOCK])
    {
      var file := BlockBytes(MergedBlock(blk, false, d, false, Extra(d[Name], d[Prefix], sum)));
      CopyInto(buffer, 0, file);
      assert buffer[..BLOCK] == file;
    }

    // The blocks around the data, or the error instead of them.
    method Emit(buffer: array<char>, blocks: Result<(string, string)>, padded: nat, ghost expected: Result<string>)
      returns (status: int, written: Option<nat>)
      requires Valid() && xhdr.Writable()
      requires padded == RoundToBlock(|LinesOf(xhdr.nodes)|) && padded + 2 * BLOCK <= buffer.Length
      requires match blocks
               case Ok(p) => |p.0| == |p.1| == BLOCK && expected == Ok(Assembled(p.0, LinesOf(xhdr.nodes), p.1))
               case Err(code) => expected == Err(code)
      modifies buffer, xhdr.nodes`headerLine
      ensures match expected
              case Ok(s) => status == PX_SUCCESS && written == Some(|s|) && |s| <= buffer.Length && buffer[..|s|] == s
              case Err(code) => status == code && written == None
    {
      match blocks {
        case Err(code) => return code, None;
        case Ok(pair) =>
          WriteParts(buffer, pair.0, padded, pair.1);
          return PX_SUCCESS, Some(padded + 2 * BLOCK);
      }
    }

    // The two blocks of a header with extended data.
    method MakeBlocks(d: Block, exact: nat, callback: Callback, sums: Sums) returns (r: Result<(string, string)>)
      requires Valid() && xhdr.Writable() && xhdr.list != null && exact == |LinesOf(xhdr.nodes)|
      requires ValidBlock(d) && ValidSums(sums)
      ensures PrintableEntries(Value().entries)
      ensures match r
              case Ok(p) => |p.0| == |p.1| == BLOCK
                            && WriteExtended(Value(), d, callback, sums) == Ok(Assembled(p.0, LinesOf(xhdr.nodes), p.1))
              case Err(code) => WriteExtended(Value(), d, callback, sums) == Err(code)
    {
      LinesOfEntries(xhdr.nodes);
      var slot := Look(Name);
      var name := GetString(slot, Name);
      if name.Err? {
        return Err(name.code);
      }
      var forXhdr := CallFor(callback, d, name.value, XhdrName);
      if forXhdr.Err? {
        return Err(forXhdr.code);
      }
      if !Fits(exact, Width(Size)) {
        return Err(PX_ERROR_WONT_FIT);
      }
      var forFile := CallFor(callback, d, name.value, FileName);
      if forFile.Err? {
        return Err(forFile.code);
      }
      var x, y := ExtraOf(forXhdr.value, sums.forXhdr), ExtraOf(forFile.value, sums.forFile);
      var first := MergedBlock(blk, true, d, true, x)[Size := OctalText(exact, Width(Size)) + "\0"];
      return Ok((BlockBytes(first), BlockBytes(MergedBlock(blk, true, d, false, y))));
    }

    // The block of the extended header, its data and the block of the file.
    method WriteParts(buffer: array<char>, x: string, padded: nat, file: string)
      requires Valid() && xhdr.Writable() && padded == RoundToBlock(|LinesOf(xhdr.nodes)|)
      requires |x| + padded + |file| <= buffer.Length
      modifies buffer, xhdr.nodes`headerLine
      ensures var s := Assembled(x, LinesOf(xhdr.nodes), file);
              |s| == |x| + padded + |file| && buffer[..|s|] == s
    {
      var data := new char[padded];
      var _ := xhdr.WriteXheader(data);
      CopyParts(buffer, x, data[..], file);
    }

    /** ph_load_pax_hdr: the block is replaced, and the pairs of the file are put, with
        their lines, before the ones the header has; after an error in the extended data,
        those read so far are there. */
    method LoadPaxHdr(buffer: string) returns (status: int)
      requires Valid() && |buffer| >= BLOCK
      modifies this, xhdr
      ensures Valid() && (old(xhdr.Writable()) ==> xhdr.Writable())
      ensures (status, Value()) == LoadRun(old(Value()), buffer)
    {
      match IsPaxHdr(buffer) {
        case Err(code) => return code;
        case Ok(Standard) =>
          blk := LoadedBlock(buffer);
          return PX_SUCCESS_STD_HEADER;
        case Ok(ExtendedBy(n)) =>
          if n + BLOCK != |buffer| {
            return PX_ERROR_INVALID_BUFFER;
          }
          status := LoadExtended(buffer[BLOCK..n], buffer[n..]);
      }
    }

    method LoadExtended(data: string, std: string) returns (status: int)
      requires Valid() && |std| >= BLOCK
      modifies this, xhdr
      ensures Valid() && (old(xhdr.Writable()) ==> xhdr.Writable())
      ensures (status, Value()) == LoadRunParts(old(Value()), data, std)
    {
      if IsPaxHdr(std) != Ok(Standard) {
        return PX_ERROR_INVALID_HEADER;
      }
      blk := LoadedBlock(std);
      status := PX_SUCCESS_STD_HEADER;
      if |data| > 0 {
        status := xhdr.MkPairs(data);
      }
    }

    // snprintf into the block, or the value into extended data.
    method PrintOctal(f: Field, n: nat, v: PaxValue) returns (status: int)
      requires Valid() && Width(f) > 0
      modifies this, xhdr
      ensures Valid() && (status, Value()) == Fill(old(Value()), f, OctalPlace(f, n, v))
      ensures forall n <- xhdr.nodes :: n in old(xhdr.nodes) || fresh(n)
    {
      var text := OctalText(n, Width(f));
      if |text| >= Width(f) {
        status := Extend(f, v);
      } else {
        OctalTextFills(n, Width(f));
        blk := blk[f := text + "\0"];
        status := PX_SUCCESS;
      }
    }
  }

  method CopyParts(buffer: array<char>, x: string, data: string, file: string)
    requires |x| + |data| + |file| <= buffer.Length
    modifies buffer
    ensures buffer[..|x| + |data| + |file|] == x + data + file
  {
    CopyInto(buffer, 0, x);
    CopyInto(buffer, |x|, data);
    CopyInto(buffer, |x| + |data|, file);
  }

  lemma OctalTextFills(n: nat, width: nat)
    requires Fits(n, width)
    ensures |OctalText(n, width)| == width - 1
  {}

  lemma {:induction false} OthersAreOld(nodes: seq<PaxPair>, keyword: string)
    ensures forall n <- Others(nodes, keyword) :: n in nodes
  {
    if nodes != [] { OthersAreOld(nodes[..|nodes| - 1], keyword); }
  }
}
