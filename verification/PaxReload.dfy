/** What the getters return after any alternation of settings with writes and loads. */
module PaxReload {
  import opened Common
  import opened CString
  import opened Numerals
  import opened PaxLength
  import opened PaxUtil
  import opened PaxRecord
  import opened PaxHeader
  import opened PaxHeaderFile

  // ------------------------------------------------------------ headers the setters make

  /** The fields and values the ph_set functions take. */
  predicate Settable(f: Field, s: Setting) {
    match s
    case SetString(src) => f in {Name, Linkname, Uname, Gname} && IsCString(src)
    case SetUnsigned(_) => f in {Mode, Uid, Gid, Size, Devmajor, Devminor}
    case SetSigned(_) => f in {Mode, Uid, Gid, Devmajor, Devminor}
    case SetTime(_, nsec) => f in {Mtime, Atime} && nsec < BILLION
    case SetType(c) => f.Type? && IsFileType(c)
  }

  predicate Ready(h: Hdr) {
    WellMade(h) && IsFileType(h.blk[Type][0])
  }

  lemma SettableFields(f: Field, s: Setting)
    requires Settable(f, s)
    ensures f !in {Magic, Version, Prefix, Chksum}
  {}

  /** A new header is ready as soon as its type is set. */
  lemma NewHeaderBecomesReady(c: char)
    requires IsFileType(c)
    ensures Ready(Set(NewHdr(), Type, SetType(c)).1)
  {}

  lemma KeywordsAreGood(f: Field)
    requires Keyword(f).Some?
    ensures IsCString(Keyword(f).value) && GoodKey(Keyword(f).value)
  {}

  lemma {:induction false} WithoutIsRereadable(entries: seq<Entry>, keyword: string)
    requires AllRereadable(entries)
    ensures AllRereadable(Without(entries, keyword))
  {
    if entries != [] {
      assert Rereadable(entries[0]);
      WithoutIsRereadable(entries[1..], keyword);
    }
  }

  predicate GoodPlace(f: Field, p: Place) {
    match p
    case InBlock(field) => |field| == Width(f) && (f.Type? ==> IsFileType(field[0]))
    case Extended(v) => ValidValue(v) && !f.Type?
  }

  lemma PlaceIsGood(f: Field, s: Setting)
    requires Settable(f, s)
    ensures GoodPlace(f, PlaceFor(Width(f), s))
  {}

  lemma PutKeepsReady(h: Hdr, f: Field, p: Place)
    requires Ready(h) && f !in {Magic, Version} && GoodPlace(f, p)
    ensures Ready(Put(h, f, p).1)
  {
    if Keyword(f).Some? {
      KeywordsAreGood(f);
      WithoutIsRereadable(h.entries, Keyword(f).value);
      if p.Extended? { TypedIsRereadable(Keyword(f).value, p.v); }
    }
  }

  lemma SetKeepsReady(h: Hdr, f: Field, s: Setting)
    requires Ready(h) && Settable(f, s)
    ensures Ready(Set(h, f, s).1)
  {
    PlaceIsGood(f, s);
    PutKeepsReady(h, f, PlaceFor(Width(f), s));
  }

  // ------------------------------------------------------------ one round

  lemma {:induction false} NewestReloaded(entries: seq<Entry>, keyword: string)
    requires PrintableEntries(entries)
    ensures var o := Newest(entries, keyword);
            && (o.Some? ==> Printable(o.value))
            && Newest(ReloadedAll(entries), keyword)
               == if o.None? then None else Some(FromLine(LineOf(keyword, o.value), TextOf(o.value)))
  {
    if entries != [] {
      assert entries[0] in entries;
      NewestReloaded(entries[1..], keyword);
      assert ReloadedAll(entries)[1..] == ReloadedAll(entries[1..]);
    }
  }

  /** What a getter finds after the load: the newest pair as text, and the field as
      it was written. */
  predicate Reloads(before: Slot, written: string, after: Slot) {
    && after.field == written
    && match before.newest
       case None => after.newest.None?
       case Some(o) => Printable(o) && after.newest.Some? && after.newest.value.FromLine?
                       && after.newest.value.text == TextOf(o)
  }

  /** The block field of a settable field as written: merged with the default, but when
      there is extended data the name is the callback's and the link name the default. */
  function WrittenText(own: string, default: string, extended: bool, name: string, f: Field): string {
    if f.Name? && extended then name
    else if f.Linkname? && extended then default
    else Merged(own, default)
  }

  lemma FieldAsWritten(h: Hdr, d: Block, y: Extra, f: Field)
    requires Ready(h) && ValidBlock(d) && ValidExtra(y) && f !in {Version, Prefix, Chksum}
    ensures WrittenField(h.blk, h.entries != [], d, false, y, f)
            == WrittenText(h.blk[f], d[f], h.entries != [], y.name, f)
  {}

  /** The header is written, with these defaults, callback and checksums, as s. */
  predicate WrittenAs(h: Hdr, d: Hdr, callback: Callback, sums: Sums, s: string) {
    Ready(h) && ValidBlock(d.blk) && ValidSums(sums) && Write(h, Some(d), callback, sums) == Ok(s)
  }

  /** One field of any header through a write and a load; with extended data, name is
      what the callback made of the header's name. */
  lemma FieldReloads(h: Hdr, d: Hdr, callback: Callback, sums: Sums, s: string, f: Field) returns (name: string)
    requires WrittenAs(h, d, callback, sums, s)
    requires f !in {Version, Prefix, Chksum}
    ensures |s| >= BLOCK && Load(s).Ok? && f in Load(s).value.blk
    ensures h.entries != [] ==>
              var actual := GetString(SlotOf(h, Name), Name);
              && actual.Ok? && CallFor(callback, d.blk, actual.value, FileName).Ok?
              && name == CallFor(callback, d.blk, actual.value, FileName).value.name
    ensures Reloads(SlotOf(h, f), WrittenText(h.blk[f], d.blk[f], h.entries != [], name, f), SlotOf(Load(s).value, f))
  {
    var y := WriteThenLoad(h, Some(d), callback, sums, s);
    name := y.name;
    FieldAsWritten(h, d.blk, y, f);
    if Keyword(f).Some? { NewestReloaded(h.entries, Keyword(f).value); }
  }

  /** Whatever file it is, what is loaded can be changed, written and loaded again. */
  lemma LoadedIsReady(buf: string)
    requires |buf| >= BLOCK && Load(buf).Ok?
    ensures Ready(Load(buf).value)
  {
    LoadedIsWellMade(buf, Load(buf).value);
  }

  // ------------------------------------------------------------ histories

  /** A setting, or a write with these defaults, file name callback and checksums and a
      load of what was written into a new header. */
  datatype Step = Change(f: Field, s: Setting) | Save(defaults: Hdr, callback: Callback, sums: Sums)

  ghost predicate ValidStep(step: Step) {
    match step
    case Change(f, s) => Settable(f, s)
    case Save(d, callback, sums) => ValidBlock(d.blk) && ValidSums(sums) && CopiesShortNames(callback)
  }

  lemma SavedLoads(h: Hdr, d: Hdr, callback: Callback, sums: Sums, s: string)
    requires WrittenAs(h, d, callback, sums, s)
    ensures |s| >= BLOCK && Load(s).Ok?
  {
    var y := WriteThenLoad(h, Some(d), callback, sums, s);
  }

  // A write that fails leaves the header as it is.
  ghost function Saved(h: Hdr, d: Hdr, callback: Callback, sums: Sums): (r: Hdr)
    requires Ready(h) && ValidBlock(d.blk) && ValidSums(sums)
    ensures Ready(r)
  {
    match Write(h, Some(d), callback, sums)
    case Err(_) => h
    case Ok(s) =>
      SavedLoads(h, d, callback, sums, s);
      LoadedIsReady(s);
      Load(s).value
  }

  ghost function Apply(h: Hdr, step: Step): (r: Hdr)
    requires Ready(h) && ValidStep(step)
    ensures Ready(r)
  {
    match step
    case Change(f, s) => SetKeepsReady(h, f, s); Set(h, f, s).1
    case Save(d, callback, sums) => Saved(h, d, callback, sums)
  }

  ghost predicate Next(before: Hdr, step: Step, after: Hdr) {
    Ready(before) && ValidStep(step) && after == Apply(before, step)
  }

  ghost predicate TakesStep(hs: seq<Hdr>, steps: seq<Step>, k: nat)
    requires |hs| == |steps| + 1 && k < |steps|
  {
    Next(hs[k], steps[k], hs[k + 1])
  }

  /** Any alternation of settings and saves, and the headers before and after each. */
  ghost predicate Trace(hs: seq<Hdr>, steps: seq<Step>) {
    && |hs| == |steps| + 1 && Ready(hs[0])
    && forall k | 0 <= k < |steps| :: TakesStep(hs, steps, k)
  }

  ghost function Last(hs: seq<Hdr>): Hdr
    requires hs != []
  {
    hs[|hs| - 1]
  }

  lemma LastIsReady(hs: seq<Hdr>, steps: seq<Step>)
    requires Trace(hs, steps)
    ensures Ready(Last(hs))
  {
    if steps != [] {
      assert TakesStep(hs, steps, |steps| - 1);
    }
  }

  lemma TraceGrows(hs: seq<Hdr>, steps: seq<Step>, step: Step, after: Hdr)
    requires Trace(hs, steps) && Next(Last(hs), step, after)
    ensures Trace(hs + [after], steps + [step])
  {
    forall k | 0 <= k < |steps| + 1 ensures TakesStep(hs + [after], steps + [step], k) {
      if k < |steps| { assert TakesStep(hs, steps, k); }
    }
  }

  /** From a header that is ready, all valid steps can be taken. */
  lemma {:induction false} TraceExists(h: Hdr, steps: seq<Step>) returns (hs: seq<Hdr>)
    requires Ready(h) && forall k | 0 <= k < |steps| :: ValidStep(steps[k])
    ensures Trace(hs, steps) && hs[0] == h
  {
    if steps == [] {
      hs := [h];
    } else {
      var n := |steps| - 1;
      hs := TraceExists(h, steps[..n]);
      LastIsReady(hs, steps[..n]);
      var after := Apply(Last(hs), steps[n]);
      TraceGrows(hs, steps[..n], steps[n], after);
      hs := hs + [after];
      assert steps[..n] + [steps[n]] == steps;
    }
  }

  // ------------------------------------------------------------ what a field carries

  /** The slot holds the setting: in the block as the same C string, or as a pair with
      the value or its text. */
  predicate Carries(f: Field, s: Setting, slot: Slot) {
    match PlaceFor(Width(f), s)
    case InBlock(field) => slot.newest.None? && CText(slot.field) == CText(field)
    case Extended(v) => ValidValue(v) && (Keyword(f).Some? ==> slot.newest.Some? && Holds(slot.newest.value, v))
  }

  predicate Holds(o: Origin, v: PaxValue)
    requires ValidValue(v)
  {
    match o
    case Typed(u) => u == v
    case FromLine(_, text) => text == ValueText(v)
  }

  /** Writing this header keeps the setting: it is in extended data, or it is not empty
      and not a link name beside extended data. */
  predicate Spares(f: Field, s: Setting, h: Hdr) {
    || PlaceFor(Width(f), s).Extended?
    || (s != SetString("") && (f.Linkname? ==> h.entries == []))
  }

  lemma StoredCarries(f: Field, s: Setting)
    requires Settable(f, s)
    ensures Carries(f, s, Stored(f, s))
  {
    PlaceIsGood(f, s);
  }

  lemma CTextFirst(field: string)
    ensures CText(field) == "" <==> field == "" || field[0] == '\0'
  {}

  // What is in the block is not empty, unless it is the empty string.
  lemma PlaceIsNotEmpty(f: Field, s: Setting)
    requires Settable(f, s) && s != SetString("") && PlaceFor(Width(f), s).InBlock?
    ensures CText(PlaceFor(Width(f), s).field) != ""
  {
    var field := PlaceFor(Width(f), s).field;
    match s
    case SetString(src) => assert field[0] == src[0];
    case SetUnsigned(n) => ScanOctal(n, Width(f));
    case SetSigned(i) => ScanOctal(i, Width(f));
    case SetTime(sec, _) => ScanOctal(sec, Width(f));
    case SetType(_) =>
  }

  // The callback copies a name that is in the block.
  lemma NameIsCopied(h: Hdr, d: Hdr, callback: Callback, name: string)
    requires ValidBlock(h.blk) && ValidBlock(d.blk) && CopiesShortNames(callback)
    requires var actual := GetString(SlotOf(h, Name), Name);
             && actual.Ok? && CallFor(callback, d.blk, actual.value, FileName).Ok?
             && name == CallFor(callback, d.blk, actual.value, FileName).value.name
    requires SlotOf(h, Name).newest.None? && CText(h.blk[Name]) != ""
    ensures CText(name) == CText(h.blk[Name])
  {
    var actual := CText(h.blk[Name]);
    assert IsCString(actual) && |actual| < Width(Name);
  }

  lemma SaveCarries(h: Hdr, d: Hdr, callback: Callback, sums: Sums, f: Field, s: Setting)
    requires Ready(h) && ValidBlock(d.blk) && ValidSums(sums) && CopiesShortNames(callback)
    requires Settable(f, s) && Carries(f, s, SlotOf(h, f)) && Spares(f, s, h)
    ensures Carries(f, s, SlotOf(Saved(h, d, callback, sums), f))
  {
    SettableFields(f, s);
    match Write(h, Some(d), callback, sums)
    case Err(_) =>
    case Ok(text) =>
      var name := FieldReloads(h, d, callback, sums, text, f);
      if PlaceFor(Width(f), s).InBlock? {
        PlaceIsNotEmpty(f, s);
        CTextFirst(h.blk[f]);
        if f.Name? && h.entries != [] {
          NameIsCopied(h, d, callback, name);
        }
      }
  }

  lemma ChangeCarries(h: Hdr, g: Field, t: Setting, f: Field, s: Setting)
    requires Ready(h) && Settable(g, t) && Settable(f, s) && g != f && Carries(f, s, SlotOf(h, f))
    ensures Carries(f, s, SlotOf(Apply(h, Change(g, t)), f))
  {
    SetSpares(h, g, t, f);
  }

  // Step i sets a field that no later step sets, and every later save spares.
  ghost predicate LastsFrom(hs: seq<Hdr>, steps: seq<Step>, i: nat)
    requires |hs| == |steps| + 1
  {
    i < |steps| && steps[i].Change? && forall j | i < j < |steps| :: LastsAt(hs, steps, i, j)
  }

  ghost predicate LastsAt(hs: seq<Hdr>, steps: seq<Step>, i: nat, j: nat)
    requires |hs| == |steps| + 1 && i < j < |steps| && steps[i].Change?
  {
    Lasts(hs[j], steps[j], steps[i].f, steps[i].s)
  }

  ghost predicate Lasts(h: Hdr, step: Step, f: Field, s: Setting) {
    if step.Change? then step.f != f else Spares(f, s, h)
  }

  // The headers whose field carries the setting.
  ghost function Carriers(f: Field, s: Setting): Hdr -> bool {
    h => Ready(h) && Settable(f, s) && Carries(f, s, SlotOf(h, f))
  }

  lemma SetCarries(h: Hdr, f: Field, s: Setting)
    requires Ready(h) && Settable(f, s)
    ensures Carriers(f, s)(Apply(h, Change(f, s)))
  {
    SetReaches(h, f, s);
    StoredCarries(f, s);
  }

  lemma StepCarries(h: Hdr, step: Step, f: Field, s: Setting)
    requires ValidStep(step) && Carriers(f, s)(h) && Lasts(h, step, f, s)
    ensures Ready(h) && Carriers(f, s)(Apply(h, step))
  {
    match step
    case Change(g, t) => ChangeCarries(h, g, t, f, s);
    case Save(d, callback, sums) => SaveCarries(h, d, callback, sums, f, s);
  }

  lemma SetsThere(hs: seq<Hdr>, steps: seq<Step>, i: nat)
    requires Trace(hs, steps) && i < |steps| && steps[i].Change?
    ensures Carriers(steps[i].f, steps[i].s)(hs[i + 1])
  {
    assert TakesStep(hs, steps, i);
    SetCarries(hs[i], steps[i].f, steps[i].s);
  }

  lemma KeepsThere(hs: seq<Hdr>, steps: seq<Step>, n: nat, f: Field, s: Setting)
    requires Trace(hs, steps) && n < |steps| && Lasts(hs[n], steps[n], f, s) && Carriers(f, s)(hs[n])
    ensures Carriers(f, s)(hs[n + 1])
  {
    assert TakesStep(hs, steps, n);
    StepCarries(hs[n], steps[n], f, s);
  }

  lemma {:induction false} PrefixCarries(hs: seq<Hdr>, steps: seq<Step>, i: nat, n: nat)
    requires Trace(hs, steps) && LastsFrom(hs, steps, i) && i <= n < |steps|
    ensures Carriers(steps[i].f, steps[i].s)(hs[n + 1])
  {
    if i == n {
      SetsThere(hs, steps, i);
    } else {
      PrefixCarries(hs, steps, i, n - 1);
      assert LastsAt(hs, steps, i, n);
      KeepsThere(hs, steps, n, steps[i].f, steps[i].s);
    }
  }

  lemma TraceCarries(hs: seq<Hdr>, steps: seq<Step>, i: nat)
    requires Trace(hs, steps) && LastsFrom(hs, steps, i)
    ensures Carriers(steps[i].f, steps[i].s)(Last(hs))
  {
    PrefixCarries(hs, steps, i, |steps| - 1);
  }

  // ------------------------------------------------------------ what is read

  /** What the getters must give for a setting, wherever it is.  A number set as unsigned
      reads as signed too, except from a pair that was not yet written and read. */
  predicate ReadsBack(f: Field, s: Setting, slot: Slot) {
    match s
    case SetUnsigned(n) =>
      Fits(n, Width(f)) || Keyword(f).Some? ==>
        && GetUnsigned(slot, f) == Ok(n)
        && (n <= I64_MAX && !(slot.newest.Some? && slot.newest.value.Typed?) ==> GetSigned(slot, f) == Ok(n))
    case SetSigned(i) => (i >= 0 && Fits(i, Width(f))) || Keyword(f).Some? ==> GetSigned(slot, f) == Ok(i)
    case SetTime(sec, nsec) => GetTime(slot, f) == Ok((sec, nsec))
    case SetString(src) =>
      GetString(slot, f) == Ok(if src == "" then None
                               else if |src| == Width(f) then Some(src[..|src| - 1]) else Some(src))
    case SetType(c) => CText(slot.field) == [c]
  }

  lemma OctalReads(f: Field, n: U64, slot: Slot)
    requires Width(f) > 1 && Fits(n, Width(f))
    requires slot.newest.None? && CText(slot.field) == CText(OctalText(n, Width(f)) + "\0")
    ensures GetUnsigned(slot, f) == Ok(n)
    ensures n <= I64_MAX ==> GetSigned(slot, f) == Ok(n) && GetTime(slot, f) == Ok((n, 0))
  {
    OctalComesBack(f, n);
  }

  lemma UnsignedIsKept(f: Field, n: U64, slot: Slot)
    requires Settable(f, SetUnsigned(n)) && Carries(f, SetUnsigned(n), slot)
    ensures ReadsBack(f, SetUnsigned(n), slot)
  {
    if Fits(n, Width(f)) { OctalReads(f, n, slot); } else { ReadPrintedU64(n); }
  }

  lemma SignedIsKept(f: Field, i: I64, slot: Slot)
    requires Settable(f, SetSigned(i)) && Carries(f, SetSigned(i), slot)
    ensures ReadsBack(f, SetSigned(i), slot)
  {
    if i >= 0 && Fits(i, Width(f)) { OctalReads(f, i, slot); } else { ReadPrintedI64(i); }
  }

  lemma TimeIsKept(f: Field, sec: I64, nsec: nat, slot: Slot)
    requires Settable(f, SetTime(sec, nsec)) && Carries(f, SetTime(sec, nsec), slot)
    ensures ReadsBack(f, SetTime(sec, nsec), slot)
  {
    if PlaceFor(Width(f), SetTime(sec, nsec)).InBlock? {
      OctalReads(f, sec, slot);
    } else {
      HeldTimeReads(f, sec, nsec, slot);
    }
  }

  lemma HeldTimeReads(f: Field, sec: I64, nsec: nat, slot: Slot)
    requires nsec < BILLION && slot.newest.Some? && Holds(slot.newest.value, Time(sec, nsec))
    ensures GetTime(slot, f) == Ok((sec, nsec))
  {
    ReadPrintedTime(sec, nsec);
  }

  lemma StringIsKept(f: Field, src: string, slot: Slot)
    requires Settable(f, SetString(src)) && Carries(f, SetString(src), slot)
    ensures ReadsBack(f, SetString(src), slot)
  {
    StringComesBack(f, src);
  }

  /** Whatever a slot carries, its getters read. */
  lemma CarriedReads(f: Field, s: Setting, slot: Slot)
    requires Settable(f, s) && Carries(f, s, slot)
    ensures ReadsBack(f, s, slot)
  {
    match s
    case SetUnsigned(n) => UnsignedIsKept(f, n, slot);
    case SetSigned(i) => SignedIsKept(f, i, slot);
    case SetTime(sec, nsec) => TimeIsKept(f, sec, nsec, slot);
    case SetString(src) => StringIsKept(f, src, slot);
    case SetType(c) => CTextFirst([c]);
  }

  /** After any alternation of settings, writes and loads every getter returns the last
      value set, wherever it was stored - as long as no save finds it empty, or finds
      it a link name in the block beside extended data. */
  lemma SettingsSurvive(hs: seq<Hdr>, steps: seq<Step>, i: nat)
    requires Trace(hs, steps) && LastsFrom(hs, steps, i)
    ensures steps[i].f in Last(hs).blk && ReadsBack(steps[i].f, steps[i].s, SlotOf(Last(hs), steps[i].f))
  {
    TraceCarries(hs, steps, i);
    CarriedReads(steps[i].f, steps[i].s, SlotOf(Last(hs), steps[i].f));
  }

  /** Every id set where ids are signed reads as signed after one more write and load,
      also the non-negative ones whose pair has the wrong type before. */
  lemma SignedIdIsKept(
      hs: seq<Hdr>, steps: seq<Step>, i: nat, id: I64, d: Hdr, callback: Callback, sums: Sums, s: string)
    requires Trace(hs, steps) && LastsFrom(hs, steps, i)
    requires steps[i].f in {Uid, Gid} && steps[i].s == SetId(id)
    requires WrittenAs(Last(hs), d, callback, sums, s) && CopiesShortNames(callback)
    ensures |s| >= BLOCK && Load(s).Ok? && steps[i].f in Load(s).value.blk
    ensures GetSigned(SlotOf(Load(s).value, steps[i].f), steps[i].f) == Ok(id)
  {
    TraceCarries(hs, steps, i);
    SignedIdThroughSave(Last(hs), steps[i].f, id, d, callback, sums, s);
  }

  lemma SignedIdThroughSave(h: Hdr, f: Field, id: I64, d: Hdr, callback: Callback, sums: Sums, s: string)
    requires WrittenAs(h, d, callback, sums, s) && CopiesShortNames(callback)
    requires f in {Uid, Gid} && Carries(f, SetId(id), SlotOf(h, f))
    ensures |s| >= BLOCK && Load(s).Ok? && f in Load(s).value.blk
    ensures GetSigned(SlotOf(Load(s).value, f), f) == Ok(id)
  {
    SaveCarries(h, d, callback, sums, f, SetId(id));
    var name := FieldReloads(h, d, callback, sums, s, f);
    CarriedReads(f, SetId(id), SlotOf(Load(s).value, f));
  }

  // ------------------------------------------------------------ when strings survive

  lemma SlotReads(text: string, f: Field, slot: Slot)
    requires slot.newest.None? && |slot.field| == Width(f)
    ensures GetString(slot, f) == Ok(Some(text)) <==> text != "" && CText(slot.field) == text && |text| < Width(f)
    ensures GetString(slot, f) == Ok(None) <==> CText(slot.field) == "" && Width(f) > 0
  {}

  lemma StringThroughSave(h: Hdr, f: Field, src: string, d: Hdr, callback: Callback, sums: Sums, s: string)
    requires WrittenAs(h, d, callback, sums, s) && CopiesShortNames(callback)
    requires Settable(f, SetString(src)) && Carries(f, SetString(src), SlotOf(h, f))
    ensures |s| >= BLOCK && Load(s).Ok? && f in Load(s).value.blk
    ensures GetString(SlotOf(Load(s).value, f), f) == Ok(Some(src))
            <==> && src != "" && |src| != Width(f)
                 && (f.Linkname? && |src| < Width(f) && h.entries != [] ==> CText(d.blk[f]) == src)
  {
    var setting := SetString(src);
    SettableFields(f, setting);
    var name := FieldReloads(h, d, callback, sums, s, f);
    if Spares(f, setting, h) {
      SaveCarries(h, d, callback, sums, f, setting);
      CarriedReads(f, setting, SlotOf(Load(s).value, f));
    } else {
      SlotReads(src, f, SlotOf(Load(s).value, f));
    }
  }

  /** Exactly when the string last set in a history comes back from one more write and
      load: it is not empty, does not have the field's width, and is not a link name
      in the block beside extended data - or the default link name is the same. */
  lemma StringSurvivesIff(
      hs: seq<Hdr>, steps: seq<Step>, i: nat, src: string, d: Hdr, callback: Callback, sums: Sums, s: string)
    requires Trace(hs, steps) && LastsFrom(hs, steps, i) && steps[i].s == SetString(src)
    requires WrittenAs(Last(hs), d, callback, sums, s) && CopiesShortNames(callback)
    ensures |s| >= BLOCK && Load(s).Ok? && steps[i].f in Load(s).value.blk
    ensures var f := steps[i].f;
            GetString(SlotOf(Load(s).value, f), f) == Ok(Some(src))
            <==> && src != "" && |src| != Width(f)
                 && (f.Linkname? && |src| < Width(f) && Last(hs).entries != [] ==> CText(d.blk[f]) == src)
  {
    TraceCarries(hs, steps, i);
    StringThroughSave(Last(hs), steps[i].f, src, d, callback, sums, s);
  }

  // What a field set to empty is written as.
  function EmptyIsWrittenAs(h: Hdr, f: Field, d: Hdr, callback: Callback): string
    requires ValidBlock(d.blk)
  {
    if f.Name? && h.entries != [] then
      match CallFor(callback, d.blk, None, FileName)
      case Ok(n) => n.name
      case Err(_) => ""
    else d.blk[f]
  }

  lemma EmptyIsCarried(f: Field, slot: Slot)
    requires Settable(f, SetString("")) && Carries(f, SetString(""), slot) && |slot.field| == Width(f)
    ensures slot.newest.None? && GetString(slot, f) == Ok(None) && slot.field[0] == '\0'
  {
    CTextFirst(Copied("", Width(f)));
    CTextFirst(slot.field);
  }

  lemma EmptyThroughSave(h: Hdr, f: Field, d: Hdr, callback: Callback, sums: Sums, s: string)
    requires WrittenAs(h, d, callback, sums, s)
    requires Settable(f, SetString("")) && Carries(f, SetString(""), SlotOf(h, f))
    ensures |s| >= BLOCK && Load(s).Ok? && f in Load(s).value.blk
    ensures SlotOf(Load(s).value, f) == Slot(EmptyIsWrittenAs(h, f, d, callback), None)
  {
    EmptyIsCarried(f, SlotOf(h, f));
    var name := FieldReloads(h, d, callback, sums, s, f);
  }

  /** A string set to empty reads as a null pointer.  After a write and a load it reads as
      the default - a file name beside extended data, as what the callback makes of no
      name - so it is a null pointer if and only if that is empty. */
  lemma EmptyStringSurvivesIff(
      hs: seq<Hdr>, steps: seq<Step>, i: nat, d: Hdr, callback: Callback, sums: Sums, s: string)
    requires Trace(hs, steps) && LastsFrom(hs, steps, i) && steps[i].s == SetString("")
    requires WrittenAs(Last(hs), d, callback, sums, s)
    ensures GetString(SlotOf(Last(hs), steps[i].f), steps[i].f) == Ok(None)
    ensures |s| >= BLOCK && Load(s).Ok? && steps[i].f in Load(s).value.blk
    ensures var f, written := steps[i].f, EmptyIsWrittenAs(Last(hs), steps[i].f, d, callback);
            && GetString(SlotOf(Load(s).value, f), f) == GetString(Slot(written, None), f)
            && (GetString(SlotOf(Load(s).value, f), f) == Ok(None) <==> CText(written) == "")
  {
    SettingsSurvive(hs, steps, i);
    TraceCarries(hs, steps, i);
    EmptyThroughSave(Last(hs), steps[i].f, d, callback, sums, s);
  }

  // ------------------------------------------------------------ the link name that is lost

  /** Any run of settings that ends with a link name that fits the block and an access
      time loses the link name: the access time always goes to extended data. */
  lemma LinkNameIsLost(h: Hdr, src: string, sec: I64, d: Hdr, callback: Callback, sums: Sums, s: string)
    requires Ready(h) && IsCString(src) && 0 < |src| < Width(Linkname)
    requires WrittenAs(LinkAndTime(h, src, sec), d, callback, sums, s)
    requires d.blk[Linkname] == Padding(Width(Linkname))
    ensures GetString(SlotOf(LinkAndTime(h, src, sec), Linkname), Linkname) == Ok(Some(src))
    ensures |s| >= BLOCK && Load(s).Ok? && Linkname in Load(s).value.blk
    ensures GetString(SlotOf(Load(s).value, Linkname), Linkname) == Ok(None)
  {
    LinkThenTime(h, src, sec);
    var before := LinkAndTime(h, src, sec);
    CarriedReads(Linkname, SetString(src), SlotOf(before, Linkname));
    var name := FieldReloads(before, d, callback, sums, s, Linkname);
    CTextFirst(d.blk[Linkname]);
    SlotReads("", Linkname, SlotOf(Load(s).value, Linkname));
  }

  function LinkAndTime(h: Hdr, src: string, sec: I64): Hdr {
    Set(Set(h, Linkname, SetString(src)).1, Atime, SetTime(sec, 0)).1
  }

  lemma TimeIsExtended(h: Hdr, sec: I64)
    ensures Set(h, Atime, SetTime(sec, 0)).1.entries != []
  {}

  lemma LinkThenTime(h: Hdr, src: string, sec: I64)
    requires Ready(h) && IsCString(src) && 0 < |src| <= Width(Linkname)
    ensures var r := LinkAndTime(h, src, sec);
            Ready(r) && r.entries != [] && Carries(Linkname, SetString(src), SlotOf(r, Linkname))
  {
    var link, time := SetString(src), SetTime(sec, 0);
    var mid := Set(h, Linkname, link).1;
    SetCarries(h, Linkname, link);
    assert Carriers(Linkname, link)(mid);
    ChangeCarries(mid, Atime, time, Linkname, link);
    SetKeepsReady(mid, Atime, time);
    TimeIsExtended(mid, sec);
  }

  // A new file header with a name.
  function Named(file: string): Hdr {
    Set(Set(NewHdr(), Type, SetType('0')).1, Name, SetString(file)).1
  }

  lemma NamedIsReady(file: string)
    requires IsCString(file) && 0 < |file| < Width(Name)
    ensures Ready(Named(file)) && Named(file).entries == []
    ensures GetString(SlotOf(Named(file), Name), Name) == Ok(Some(file))
  {
    var h := Set(NewHdr(), Type, SetType('0')).1;
    NewHeaderBecomesReady('0');
    SetKeepsReady(h, Name, SetString(file));
    SetReaches(h, Name, SetString(file));
    StringComesBack(Name, file);
  }

  lemma OnlyTheTime(h: Hdr, src: string)
    requires h.entries == [] && 0 < |src| <= Width(Linkname)
    ensures LinkAndTime(h, src, 0).entries == [Entry("atime", Typed(Time(0, 0)))]
  {}

  // An access time of 0 is one short line.
  lemma TimeLineFits(e: Entry)
    requires e == Entry("atime", Typed(Time(0, 0)))
    ensures PrintableEntries([e]) && Fits(|EntryLines([e])|, Width(Size))
  {
    assert [e][1..] == [] && EntryLines([]) == "";
    LineCountsItself(e.keyword, ValueText(e.origin.v));
    ShortLineFits(|Body(e.keyword, ValueText(e.origin.v))|);
  }

  lemma ShortLineFits(n: nat)
    requires n < 10
    ensures Fits(LineLength(n), Width(Size))
  {
    NumeralLength(Decimal, n, 1);
    assert Pow(Decimal, 1) == 10;
    FitsIff(LineLength(n), 12);
    assert Pow(Octal, 11) > 64;
  }

  /** It happens: a new file header with a name, a link name and an access time is
      written and loaded, and the link name is gone. */
  lemma LinkNameLossHappens(file: string, src: string, sums: Sums) returns (s: string)
    requires IsCString(file) && 0 < |file| < Width(Name) && IsCString(src) && 0 < |src| < Width(Linkname)
    requires ValidSums(sums)
    ensures var h := LinkAndTime(Named(file), src, 0);
            && WrittenAs(h, NewHdr(), Basic(""), sums, s)
            && GetString(SlotOf(h, Linkname), Linkname) == Ok(Some(src))
            && |s| >= BLOCK && Load(s).Ok? && Linkname in Load(s).value.blk
            && GetString(SlotOf(Load(s).value, Linkname), Linkname) == Ok(None)
  {
    NamedIsReady(file);
    s := LinkIsWritten(Named(file), file, src, sums);
    LinkNameIsLost(Named(file), src, 0, NewHdr(), Basic(""), sums, s);
  }

  lemma LinkIsWritten(h: Hdr, file: string, src: string, sums: Sums) returns (s: string)
    requires Ready(h) && h.entries == [] && GetString(SlotOf(h, Name), Name) == Ok(Some(file))
    requires IsCString(src) && 0 < |src| < Width(Linkname) && ValidSums(sums)
    ensures WrittenAs(LinkAndTime(h, src, 0), NewHdr(), Basic(""), sums, s)
  {
    var r := LinkAndTime(h, src, 0);
    LinkThenTime(h, src, 0);
    OnlyTheTime(h, src);
    TimeLineFits(r.entries[0]);
    LinkSparesName(h, src);
    BasicWriteSucceedsIff(r, NewHdr(), "", sums);
    s := Write(r, Some(NewHdr()), Basic(""), sums).value;
  }

  lemma LinkSparesName(h: Hdr, src: string)
    requires Name in h.blk
    ensures var r := LinkAndTime(h, src, 0); Name in r.blk && SlotOf(r, Name) == SlotOf(h, Name)
  {
    SetSpares(h, Linkname, SetString(src), Name);
    SetSpares(Set(h, Linkname, SetString(src)).1, Atime, SetTime(0, 0), Name);
  }

  // ------------------------------------------------------------ the empty string that is not

  // Defaults with an owner's name.
  function OwnedBy(user: string): Hdr {
    Set(NewHdr(), Uname, SetString(user)).1
  }

  lemma OwnerIsThere(user: string)
    requires IsCString(user) && 0 < |user| < Width(Uname)
    ensures ValidBlock(OwnedBy(user).blk) && CText(OwnedBy(user).blk[Uname]) == user
  {
    CTextOf(user, Padding(Width(Uname) - |user|));
  }

  lemma Unowned(file: string)
    requires IsCString(file) && 0 < |file| < Width(Name)
    ensures var h := Set(Named(file), Uname, SetString("")).1;
            Ready(h) && h.entries == [] && Carries(Uname, SetString(""), SlotOf(h, Uname))
  {
    NamedIsReady(file);
    SetCarries(Named(file), Uname, SetString(""));
  }

  /** It happens: the owner's name of a new file header is set to empty, and after a write
      and a load it is that of the defaults. */
  lemma EmptyStringLossHappens(file: string, user: string, callback: Callback, sums: Sums) returns (s: string)
    requires IsCString(file) && 0 < |file| < Width(Name) && IsCString(user) && 0 < |user| < Width(Uname)
    requires ValidSums(sums)
    ensures var h := Set(Named(file), Uname, SetString("")).1;
            && WrittenAs(h, OwnedBy(user), callback, sums, s)
            && GetString(SlotOf(h, Uname), Uname) == Ok(None)
            && |s| >= BLOCK && Load(s).Ok? && Uname in Load(s).value.blk
            && GetString(SlotOf(Load(s).value, Uname), Uname) == Ok(Some(user))
  {
    var h, d := Set(Named(file), Uname, SetString("")).1, OwnedBy(user);
    Unowned(file);
    OwnerIsThere(user);
    s := Write(h, Some(d), callback, sums).value;
    EmptyIsCarried(Uname, SlotOf(h, Uname));
    EmptyThroughSave(h, Uname, d, callback, sums, s);
    SlotReads(user, Uname, SlotOf(Load(s).value, Uname));
  }
}
