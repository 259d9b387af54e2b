/** The extended header as a linked list of pairs, newest first. */
module PaxXhdr {
  import opened Common
  import opened PaxErrors
  import opened PaxLength
  import opened PaxUtil
  import opened PaxRecord

  class PaxPair {
    const keyword: string
    const origin: Origin
    var headerLine: Option<string>
    var next: PaxPair?

    constructor (keyword: string, origin: Origin)
      ensures this.keyword == keyword && this.origin == origin && headerLine.None? && next == null
    {
      this.keyword, this.origin, headerLine, next := keyword, origin, None, null;
    }

    ghost predicate Formatted()
      reads this
    {
      Printable(origin) && (headerLine.Some? ==> headerLine.value == LineOf(keyword, origin))
    }

    // The line's length is known or can be computed.
    ghost predicate Measurable()
      reads this
      requires Formatted()
    {
      origin.FromLine? || headerLine.Some? || |LineOf(keyword, origin)| <= U64_MAX
    }

    /** pxp_get_line_len: the line's length, without leaving a line behind. */
    method GetLineLen() returns (r: Result<nat>)
      requires Formatted()
      ensures r == if Measurable() then Ok(|LineOf(keyword, origin)|) else Err(PX_ERROR_RANGE)
    {
      if origin.FromLine? {
        return Ok(|origin.line|);
      }
      if headerLine.Some? {
        return Ok(|headerLine.value|);
      }
      var body := Body(keyword, ValueText(origin.v));
      LineCountsItself(keyword, ValueText(origin.v));
      if |body| > U64_MAX {
        LineLengthIsLeast(|body|, 0);
        return Err(PX_ERROR_RANGE);
      }
      r := AdjustLineLength(|body|, U64_MAX);
    }

    /** pxp_get_line: format the line unless it is already there. */
    method GetLine(force: bool) returns (r: Result<string>)
      requires Formatted()
      modifies this`headerLine
      ensures Formatted()
      ensures r == (if |LineOf(keyword, origin)| <= U64_MAX || origin.FromLine?
                       || (old(headerLine).Some? && !force)
                    then Ok(LineOf(keyword, origin)) else Err(PX_ERROR_RANGE))
    {
      if origin.FromLine? {
        return Ok(origin.line);
      }
      if headerLine.Some? && !force {
        return Ok(headerLine.value);
      }
      headerLine := None;
      var body := Body(keyword, ValueText(origin.v));
      LineCountsItself(keyword, ValueText(origin.v));
      if |body| > U64_MAX {
        LineLengthIsLeast(|body|, 0);
        return Err(PX_ERROR_RANGE);
      }
      var adjusted := AdjustLineLength(|body|, U64_MAX);
      match adjusted {
        case Err(code) => return Err(code);
        case Ok(len) =>
          var line := Numerals.Numeral(Numerals.Decimal, len) + body;
          headerLine := Some(line);
          return Ok(line);
      }
    }
  }

  // The pairs of a list as values, and the lines they are written as, oldest first.
  ghost function EntriesOf(nodes: seq<PaxPair>): (es: seq<Entry>)
    ensures |es| == |nodes|
  {
    if nodes == [] then [] else [Entry(nodes[0].keyword, nodes[0].origin)] + EntriesOf(nodes[1..])
  }

  ghost function LinesOf(nodes: seq<PaxPair>): string
    requires AllPrintable(nodes)
  {
    if nodes == [] then "" else LinesOf(nodes[1..]) + LineOf(nodes[0].keyword, nodes[0].origin)
  }

  ghost predicate AllPrintable(nodes: seq<PaxPair>) {
    forall n <- nodes :: Printable(n.origin)
  }

  // ------------------------------------------------------------ list contents

  /** The pairs with a keyword, in list order - newest first. */
  function Matching(nodes: seq<PaxPair>, keyword: string): seq<PaxPair> {
    if nodes == [] then []
    else
      var n := |nodes| - 1;
      Matching(nodes[..n], keyword) + if nodes[n].keyword == keyword then [nodes[n]] else []
  }

  function Others(nodes: seq<PaxPair>, keyword: string): seq<PaxPair> {
    if nodes == [] then []
    else
      var n := |nodes| - 1;
      Others(nodes[..n], keyword) + if nodes[n].keyword == keyword then [] else [nodes[n]]
  }

  // next leads from head through the nodes, each once, to null.
  ghost predicate Chain(head: PaxPair?, nodes: seq<PaxPair>)
    reads nodes
  {
    && head == At(nodes, 0)
    && (forall i {:trigger nodes[i].next} | 0 <= i < |nodes| :: nodes[i].next == At(nodes, i + 1))
    && (forall i, j | 0 <= i < j < |nodes| :: nodes[i] != nodes[j])
  }

  ghost function At(nodes: seq<PaxPair>, i: nat): PaxPair? {
    if i < |nodes| then nodes[i] else null
  }

  // What one parsed line does to the list.
  ghost predicate Round(
      parsed: Parse, rest: string, consumed: int, status: int, before: seq<Entry>, after: seq<Entry>)
  {
    match parsed
    case NoMorePairs => consumed == 0 && status == PX_SUCCESS && after == before
    case Bad(code) => consumed == 0 && status == code && after == before
    case Record(keyword, text, len) =>
      consumed == len <= |rest| && after == [Entry(keyword, FromLine(rest[..len], text))] + before
  }

  lemma RoundParsed(rest: string, consumed: nat, status: int, before: seq<Entry>, after: seq<Entry>)
    requires rest != "" && consumed <= |rest| && Round(ParseLine(rest), rest, consumed, status, before, after)
    ensures ParseRun(rest, before)
            == if consumed == 0 then (status, after) else ParseRun(rest[consumed..], after)
  {
  }

  class Xhdr {
    var list: PaxPair?
    ghost var nodes: seq<PaxPair>

    ghost predicate Valid()
      reads this, nodes
    {
      Chain(list, nodes)
    }

    constructor ()
      ensures Valid() && nodes == []
    {
      list, nodes := null, [];
    }

    /** pxh_count_matches */
    method CountMatches(keyword: Option<string>) returns (count: nat)
      requires Valid()
      ensures count == match keyword case None => |nodes| case Some(k) => |Matching(nodes, k)|
    {
      count := 0;
      var cur := list;
      ghost var i := 0;
      while cur != null
        invariant 0 <= i <= |nodes| && cur == At(nodes, i)
        invariant count == match keyword case None => i case Some(k) => |Matching(nodes[..i], k)|
        decreases |nodes| - i
      {
        assert nodes[..i + 1][..i] == nodes[..i];
        if keyword.None? || keyword.value == cur.keyword {
          count := count + 1;
        }
        cur := cur.next;
        i := i + 1;
      }
      assert nodes[..i] == nodes;
    }

    /** pxh_put_pair with the duplicate check compiled in: a pair already in the
        list is refused with the (positive) negated error code. */
    method PutPair(pair: PaxPair, countMatch: bool) returns (r: int)
      requires Valid()
      modifies this, pair`next
      ensures Valid()
      ensures pair in old(nodes) ==>
                r == -PX_ERROR_DUPLICATE_INSERTION && nodes == old(nodes) && list == old(list)
      ensures pair !in old(nodes) ==>
                && nodes == [pair] + old(nodes)
                && r == if countMatch then |Matching(old(nodes), pair.keyword)| else 0
    {
      var ip := list;
      ghost var i := 0;
      while ip != null
        invariant 0 <= i <= |nodes| && ip == At(nodes, i) && pair !in nodes[..i]
        decreases |nodes| - i
      {
        if ip == pair {
          return -PX_ERROR_DUPLICATE_INSERTION;
        }
        ip := ip.next;
        i := i + 1;
      }
      assert nodes[..i] == nodes;
      r := 0;
      if countMatch {
        r := CountMatches(Some(pair.keyword));
      }
      pair.next := list;
      list := pair;
      nodes := [pair] + nodes;
    }

    /** pxh_get_pair: the newest match, or all of them, newest first. */
    method GetPair(keyword: string, all: bool) returns (result: seq<PaxPair>)
      requires Valid()
      ensures result == if all then Matching(nodes, keyword) else FirstOf(Matching(nodes, keyword))
    {
      result := [];
      var cur := list;
      ghost var i := 0;
      while cur != null
        invariant 0 <= i <= |nodes| && cur == At(nodes, i)
        invariant result == Matching(nodes[..i], keyword) && (!all ==> result == [])
        decreases |nodes| - i
      {
        assert nodes[..i + 1][..i] == nodes[..i];
        if keyword == cur.keyword {
          result := result + [cur];
          if !all {
            MatchingPrefix(nodes, i + 1, keyword);
            return;
          }
        }
        cur := cur.next;
        i := i + 1;
      }
      assert nodes[..i] == nodes;
    }

    /** Take the current pair out of the list and append it to the matches. */
    method Unlink(pair: PaxPair, prev: PaxPair?, matchesTail: PaxPair?,
                  ghost kept: seq<PaxPair>, ghost removed: seq<PaxPair>, ghost rest: seq<PaxPair>)
      requires Partition(kept, removed, rest) && rest != [] && pair == rest[0]
      requires Linked(list, kept, pair) && prev == Last(kept)
      requires Inner(removed) && matchesTail == Last(removed) && Linked(pair, rest, null)
      requires (prev != null ==> prev in nodes) && (matchesTail != null ==> matchesTail in nodes)
      modifies this`list, nodes`next
      ensures Linked(list, kept, At(rest, 1)) && Inner(removed + [pair])
      ensures Linked(At(rest, 1), rest[1..], null) && pair.next == At(rest, 1)
    {
      var after := pair.next;
      assert rest[0].next == At(rest, 1);
      if matchesTail != null {
        assert matchesTail == removed[|removed| - 1];
        matchesTail.next := pair;
      }
      assert Linked(list, kept, pair) && Linked(pair, rest, null);
      if prev == null {
        list := after;
      } else {
        assert prev == kept[|kept| - 1];
        assert forall k | 0 <= k < |rest| :: rest[k] != kept[|kept| - 1];
        prev.next := after;
      }
      assert Linked(pair, rest, null);
      forall k | 0 <= k < |rest| - 1 ensures rest[1..][k].next == AtOr(rest[1..], k + 1, null) {
        assert rest[1..][k] == rest[k + 1];
        assert rest[k + 1].next == AtOr(rest, k + 1 + 1, null);
      }
    }

    // One match: it leaves the list and becomes the last of the matches.
    method TakeOut(pair: PaxPair, prev: PaxPair?, matchesTail: PaxPair?, matches: PaxPair?,
                   ghost kept: seq<PaxPair>, ghost removed: seq<PaxPair>, ghost rest: seq<PaxPair>)
      returns (first: PaxPair, after: PaxPair?)
      requires rest != [] && pair == rest[0]
      requires Sorting(list, kept, removed, rest, prev, matches, matchesTail)
      requires (prev != null ==> prev in nodes) && (matchesTail != null ==> matchesTail in nodes)
      modifies this`list, nodes`next
      ensures Sorting(list, kept, removed + [pair], rest[1..], prev, first, pair) && after == At(rest[1..], 0)
    {
      PartitionStep(kept, removed, rest);
      Unlink(pair, prev, matchesTail, kept, removed, rest);
      first := if matches == null then pair else matches;
      after := pair.next;
    }

    /** The loop of pxh_remove_pair with all_match: every pair is sorted into the
        kept or the removed ones. */
    method SplitMatches(keyword: string)
      returns (matchesTail: PaxPair?, count: nat, matches: PaxPair?,
               ghost kept: seq<PaxPair>, ghost removed: seq<PaxPair>)
      requires Valid()
      modifies this`list, nodes`next
      ensures Sorting(list, kept, removed, [], Last(kept), matches, matchesTail) && count == |removed|
      ensures matchesTail != null ==> matchesTail in nodes
      ensures removed == Matching(nodes, keyword) && kept == Others(nodes, keyword)
    {
      matches, matchesTail, count := null, null, 0;
      var pair, prev: PaxPair? := list, null;
      kept, removed := [], [];
      ghost var i, rest := 0, nodes;
      while pair != null
        invariant 0 <= i <= |nodes| && rest == nodes[i..] && pair == At(rest, 0)
        invariant kept == Others(nodes[..i], keyword) && removed == Matching(nodes[..i], keyword)
        invariant (prev != null ==> prev in nodes) && (matchesTail != null ==> matchesTail in nodes)
        invariant Sorting(list, kept, removed, rest, prev, matches, matchesTail) && count == |removed|
        decreases |nodes| - i
      {
        MatchingUpTo(nodes, i, keyword);
        ghost var left := rest;
        rest := rest[1..];
        if keyword == pair.keyword {
          var after;
          matches, after := TakeOut(pair, prev, matchesTail, matches, kept, removed, left);
          matchesTail, count := pair, count + 1;
          removed := removed + [pair];
          pair := after;
        } else {
          Keeping(list, kept, removed, left, prev, matches, matchesTail);
          prev := pair;
          kept := kept + [pair];
          pair := pair.next;
        }
        i := i + 1;
      }
      assert nodes[..i] == nodes && rest == [];
    }

    /** pxh_remove_pair with all_match: take every match out of the list and return
        them, newest first, as a list of their own. */
    method RemoveAll(keyword: string) returns (matches: PaxPair?, count: nat, ghost removed: seq<PaxPair>)
      requires Valid()
      modifies this, nodes`next
      ensures Valid() && nodes == Others(old(nodes), keyword)
      ensures Chain(matches, removed) && removed == Matching(old(nodes), keyword) && count == |removed|
    {
      var matchesTail;
      ghost var kept;
      matchesTail, count, matches, kept, removed := SplitMatches(keyword);
      if matchesTail != null && matchesTail.next != null {
        assert matchesTail == removed[|removed| - 1];
        matchesTail.next := null;
      }
      nodes := kept;
    }

    /** The newest match and the pair before it. */
    method FindFirst(keyword: string) returns (pair: PaxPair?, prev: PaxPair?, ghost i: nat)
      requires Valid()
      ensures i <= |nodes| && pair == At(nodes, i) && prev == if i == 0 then null else nodes[i - 1]
      ensures pair == At(Matching(nodes, keyword), 0)
      ensures WithoutFirst(nodes, keyword) == if pair == null then nodes else nodes[..i] + nodes[i + 1..]
    {
      pair, prev, i := list, null, 0;
      while pair != null && keyword != pair.keyword
        invariant 0 <= i <= |nodes| && pair == At(nodes, i)
        invariant prev == if i == 0 then null else nodes[i - 1]
        invariant Matching(nodes[..i], keyword) == []
        decreases |nodes| - i
      {
        assert nodes[..i + 1][..i] == nodes[..i];
        prev := pair;
        pair := pair.next;
        i := i + 1;
      }
      if pair == null {
        assert nodes[..i] == nodes;
        NoMatch(nodes, keyword);
      } else {
        FirstMatch(nodes, i, keyword);
      }
    }

    /** Unlink the pair at index i. */
    method Detach(pair: PaxPair, prev: PaxPair?, ghost i: nat)
      requires Valid() && i < |nodes| && pair == nodes[i] && prev == if i == 0 then null else nodes[i - 1]
      modifies this`list, nodes`next
      ensures Chain(list, nodes[..i] + nodes[i + 1..]) && pair.next == null
    {
      assert pair.next == At(nodes, i + 1);
      if prev == null {
        list := pair.next;
      } else {
        prev.next := pair.next;
      }
      pair.next := null;
      ghost var left := nodes[..i] + nodes[i + 1..];
      assert forall k | 0 <= k < |nodes| && k != i && k != i - 1 :: nodes[k].next == At(nodes, k + 1);
      forall k | 0 <= k < |left| ensures left[k].next == At(left, k + 1) {
        var j := if k < i then k else k + 1;
        assert left[k] == nodes[j];
      }
    }

    /** pxh_remove_pair without all_match: take out the newest match only. */
    method RemoveFirst(keyword: string) returns (taken: PaxPair?)
      requires Valid()
      modifies this, nodes`next
      ensures Valid() && nodes == WithoutFirst(old(nodes), keyword)
      ensures taken == At(Matching(old(nodes), keyword), 0) && (taken != null ==> taken.next == null)
    {
      ghost var i;
      var prev;
      taken, prev, i := FindFirst(keyword);
      if taken != null {
        ghost var left := nodes[..i] + nodes[i + 1..];
        Detach(taken, prev, i);
        nodes := left;
      }
    }

    ghost predicate Writable()
      reads this, nodes
    {
      AllPrintable(nodes) && AllWritable(nodes)
    }

    /** pxh_get_xheader_size: the exact length of the data, and whole blocks. */
    method GetXheaderSize() returns (status: int, exact: nat, padded: nat)
      requires Valid() && forall n <- nodes :: n.Formatted()
      ensures status == if AllMeasurable(nodes) then PX_SUCCESS else PX_ERROR_RANGE
      ensures AllPrintable(nodes)
      ensures status == PX_SUCCESS ==> exact == |LinesOf(nodes)| && padded == RoundToBlock(exact)
      ensures status != PX_SUCCESS ==> padded == 0
    {
      exact, padded := 0, 0;
      var cur := list;
      ghost var i := 0;
      assert nodes[0..] == nodes && AllPrintable(nodes);
      while cur != null
        invariant 0 <= i <= |nodes| && cur == At(nodes, i)
        invariant AllMeasurable(nodes[..i])
        invariant exact + |LinesOf(nodes[i..])| == |LinesOf(nodes)|
        decreases |nodes| - i
      {
        assert nodes[i] in nodes && nodes[i..][1..] == nodes[i + 1..];
        var len := cur.GetLineLen();
        if len.Err? {
          return len.code, exact, 0;
        }
        exact := exact + len.value;
        cur := cur.next;
        i := i + 1;
      }
      assert nodes[..i] == nodes;
      return PX_SUCCESS, exact, RoundToBlock(exact);
    }

    /** _reverse_list: the pairs oldest first. */
    method Reversed() returns (rev: seq<PaxPair>)
      requires Valid()
      ensures |rev| == |nodes| && forall k | 0 <= k < |rev| :: rev[k] == nodes[|nodes| - 1 - k]
    {
      rev := [];
      var cur := list;
      ghost var i := 0;
      while cur != null
        invariant 0 <= i <= |nodes| && cur == At(nodes, i)
        invariant |rev| == i && forall k | 0 <= k < i :: rev[k] == nodes[i - 1 - k]
        decreases |nodes| - i
      {
        rev := [cur] + rev;
        cur := cur.next;
        i := i + 1;
      }
    }

    /** pxh_write_xheader: the lines, oldest first, then zeros to the buffer's end;
        or an error when the lines do not fit. */
    method WriteXheader(buffer: array<char>) returns (status: int)
      requires Valid() && Writable()
      modifies buffer, nodes`headerLine
      ensures Valid() && Writable()
      ensures status == if |LinesOf(nodes)| <= buffer.Length then PX_SUCCESS else PX_ERROR_OVERFLOW
      ensures status == PX_SUCCESS ==>
                buffer[..] == LinesOf(nodes) + Padding(buffer.Length - |LinesOf(nodes)|)
    {
      var rev := Reversed();
      ReversedLines(nodes, rev);
      ReversedNodes(nodes, rev);
      status := WriteAll(rev, buffer);
    }

    /** One round of pxh_mkpairs: pxp_mkpair_line at position p; the position behind
        the line, or the same position and the status to stop with. */
    method MkPairLine(buf: string, p: nat, ghost rest: string) returns (q: nat, status: int)
      requires p < |buf| && rest == buf[p..] && Valid()
      modifies this
      ensures Valid() && p <= q <= |buf| && (old(Writable()) ==> Writable())
      ensures Round(ParseLine(rest), rest, q - p, status, EntriesOf(old(nodes)), EntriesOf(nodes))
    {
      var parsed := ParseLine(buf[p..]);
      match parsed {
        case NoMorePairs => return p, PX_SUCCESS;
        case Bad(code) => return p, code;
        case Record(keyword, text, len) =>
          assert buf[p..p + len] == rest[..len];
          AddParsed(keyword, buf[p..p + len], text);
          return p + len, PX_SUCCESS;
      }
    }

    // The same in terms of what parsing all of the rest must give.
    method MkPairHere(buf: string, p: nat, ghost rest: string, ghost expected: (int, seq<Entry>))
      returns (q: nat, status: int)
      requires p < |buf| && rest == buf[p..] && Valid()
      requires ParseRun(rest, EntriesOf(nodes)) == expected
      modifies this
      ensures Valid() && p <= q <= |buf| && (old(Writable()) ==> Writable())
      ensures expected
              == if q - p == 0 then (status, EntriesOf(nodes)) else ParseRun(rest[q - p..], EntriesOf(nodes))
    {
      ghost var before := EntriesOf(nodes);
      q, status := MkPairLine(buf, p, rest);
      RoundParsed(rest, q - p, status, before, EntriesOf(nodes));
    }

    /** pxh_mkpairs: parse the buffer, putting each pair, with its line, at the head of the
        list; after an error the pairs before it stay there. */
    method MkPairs(buf: string) returns (status: int)
      requires Valid()
      modifies this
      ensures Valid() && (old(Writable()) ==> Writable())
      ensures (status, EntriesOf(nodes)) == ParseRun(buf, EntriesOf(old(nodes)))
    {
      ghost var expected, rest := ParseRun(buf, EntriesOf(nodes)), buf;
      var p := 0;
      while p < |buf|
        invariant p <= |buf| && rest == buf[p..] && Valid()
        invariant old(Writable()) ==> Writable()
        invariant ParseRun(rest, EntriesOf(nodes)) == expected
      {
        var q;
        q, status := MkPairHere(buf, p, rest, expected);
        if p == q {
          return;
        }
        rest := rest[q - p..];
        p := q;
      }
      return PX_SUCCESS;
    }

    // A new pair from a parsed line, at the head of the list.
    method AddParsed(keyword: string, line: string, text: string)
      requires Valid() && |line| <= U64_MAX
      modifies this
      ensures Valid() && (old(Writable()) ==> Writable())
      ensures EntriesOf(nodes) == [Entry(keyword, FromLine(line, text))] + EntriesOf(old(nodes))
    {
      var pair := new PaxPair(keyword, FromLine(line, text));
      ghost var before := nodes;
      var _ := PutPair(pair, false);
      assert nodes[1..] == before;
    }
  }

  // Lines in writing order.
  ghost function Concatenated(rev: seq<PaxPair>): string
    requires AllPrintable(rev)
  {
    if rev == [] then ""
    else
      var n := |rev| - 1;
      assert rev[n] in rev;
      Concatenated(rev[..n]) + LineOf(rev[n].keyword, rev[n].origin)
  }

  lemma {:induction false} ReversedLines(nodes: seq<PaxPair>, rev: seq<PaxPair>)
    requires |rev| == |nodes| && forall k | 0 <= k < |rev| :: rev[k] == nodes[|nodes| - 1 - k]
    requires AllPrintable(nodes)
    ensures AllPrintable(rev) && Concatenated(rev) == LinesOf(nodes)
  {
    if nodes != [] {
      var n := |rev| - 1;
      assert rev[n] == nodes[0];
      ReversedLines(nodes[1..], rev[..n]);
    }
  }

  lemma ReversedNodes(nodes: seq<PaxPair>, rev: seq<PaxPair>)
    requires |rev| == |nodes| && forall k | 0 <= k < |rev| :: rev[k] == nodes[|nodes| - 1 - k]
    ensures forall n: PaxPair :: n in rev <==> n in nodes
  {
    forall k | 0 <= k < |nodes| ensures nodes[k] in rev {
      assert nodes[k] == rev[|nodes| - 1 - k];
    }
  }

  lemma {:induction false} LinesGrow(rev: seq<PaxPair>, k: nat)
    requires k <= |rev| && AllPrintable(rev)
    ensures |Concatenated(rev[..k])| <= |Concatenated(rev)|
    decreases |rev| - k
  {
    if k == |rev| {
      assert rev[..k] == rev;
    } else {
      LinesGrow(rev, k + 1);
      assert rev[..k + 1][..k] == rev[..k];
    }
  }

  ghost predicate AllMeasurable(nodes: seq<PaxPair>)
    reads nodes
    requires forall n <- nodes :: n.Formatted()
  {
    forall n <- nodes :: n.Measurable()
  }

  ghost predicate AllWritable(nodes: seq<PaxPair>)
    reads nodes
  {
    forall n <- nodes :: n.Formatted() && |LineOf(n.keyword, n.origin)| <= U64_MAX
  }

  /** The loop of pxh_write_xheader: the number of bytes written, or None when a
      line does not fit any more. */
  method WriteLines(rev: seq<PaxPair>, buffer: array<char>) returns (r: Option<nat>)
    requires AllPrintable(rev) && AllWritable(rev)
    modifies buffer, rev`headerLine
    ensures AllWritable(rev)
    ensures r == if |Concatenated(rev)| <= buffer.Length then Some(|Concatenated(rev)|) else None
    ensures r.Some? ==> buffer[..r.value] == Concatenated(rev)
  {
    var at: nat := 0;
    for ip := 0 to |rev|
      invariant 0 <= at <= buffer.Length && AllWritable(rev)
      invariant buffer[..at] == Concatenated(rev[..ip])
    {
      assert rev[..ip + 1][..ip] == rev[..ip];
      var line := rev[ip].GetLine(false);
      if |line.value| > buffer.Length - at {
        LinesGrow(rev, ip + 1);
        return None;
      }
      CopyInto(buffer, at, line.value);
      at := at + |line.value|;
    }
    assert rev[..|rev|] == rev;
    return Some(at);
  }

  method WriteAll(rev: seq<PaxPair>, buffer: array<char>) returns (status: int)
    requires AllPrintable(rev) && AllWritable(rev)
    modifies buffer, rev`headerLine
    ensures AllWritable(rev)
    ensures status == if |Concatenated(rev)| <= buffer.Length then PX_SUCCESS else PX_ERROR_OVERFLOW
    ensures status == PX_SUCCESS ==>
              buffer[..] == Concatenated(rev) + Padding(buffer.Length - |Concatenated(rev)|)
  {
    var at := WriteLines(rev, buffer);
    if at.None? {
      return PX_ERROR_OVERFLOW;
    }
    CopyInto(buffer, at.value, Padding(buffer.Length - at.value));
    assert buffer[..] == buffer[..buffer.Length];
    return PX_SUCCESS;
  }

  method CopyInto(buffer: array<char>, at: nat, line: string)
    requires at + |line| <= buffer.Length
    modifies buffer
    ensures buffer[..at] == old(buffer[..at])
    ensures buffer[..at + |line|] == old(buffer[..at]) + line
  {
    for i := 0 to |line|
      invariant buffer[..at + i] == old(buffer[..at]) + line[..i]
    {
      buffer[at + i] := line[i];
    }
    assert line[..|line|] == line;
  }

  // Between two rounds of the loop: the list leads through the kept pairs to the rest,
  // and the matches are linked to one another.
  ghost predicate Sorting(list: PaxPair?, kept: seq<PaxPair>, removed: seq<PaxPair>, rest: seq<PaxPair>,
                          prev: PaxPair?, matches: PaxPair?, matchesTail: PaxPair?)
    reads kept, removed, rest
  {
    && Partition(kept, removed, rest)
    && Linked(list, kept, At(rest, 0)) && prev == Last(kept) && Linked(At(rest, 0), rest, null)
    && Inner(removed) && matches == At(removed, 0) && matchesTail == Last(removed)
  }

  lemma Keeping(list: PaxPair?, kept: seq<PaxPair>, removed: seq<PaxPair>, rest: seq<PaxPair>,
                prev: PaxPair?, matches: PaxPair?, matchesTail: PaxPair?)
    requires rest != [] && Sorting(list, kept, removed, rest, prev, matches, matchesTail)
    ensures Sorting(list, kept + [rest[0]], removed, rest[1..], rest[0], matches, matchesTail)
    ensures rest[0].next == At(rest[1..], 0)
  {
    PartitionStep(kept, removed, rest);
    LinkedStep(list, kept, rest);
  }

  lemma LinkedStep(list: PaxPair?, kept: seq<PaxPair>, rest: seq<PaxPair>)
    requires rest != [] && Linked(list, kept, rest[0]) && Linked(rest[0], rest, null)
    ensures Linked(list, kept + [rest[0]], rest[0].next) && Linked(rest[0].next, rest[1..], null)
  {
    var more := kept + [rest[0]];
    forall k | 0 <= k < |more| ensures more[k].next == AtOr(more, k + 1, rest[0].next) {
      if k < |kept| { assert kept[k].next == AtOr(kept, k + 1, rest[0]); }
    }
    assert rest[0].next == AtOr(rest, 0 + 1, null);
    forall k | 0 <= k < |rest| - 1 ensures rest[1..][k].next == AtOr(rest[1..], k + 1, null) {
      assert rest[1..][k] == rest[k + 1];
      assert rest[k + 1].next == AtOr(rest, k + 1 + 1, null);
    }
  }

  // The list leads from head through the nodes to end.
  ghost predicate Linked(head: PaxPair?, nodes: seq<PaxPair>, end: PaxPair?)
    reads nodes
  {
    && head == AtOr(nodes, 0, end)
    && forall k {:trigger nodes[k].next} | 0 <= k < |nodes| :: nodes[k].next == AtOr(nodes, k + 1, end)
  }

  ghost function AtOr(nodes: seq<PaxPair>, i: nat, end: PaxPair?): PaxPair? {
    if i < |nodes| then nodes[i] else end
  }

  // Each node but the last leads to its successor.
  ghost predicate Inner(nodes: seq<PaxPair>)
    reads nodes
  {
    forall k {:trigger nodes[k].next} | 0 <= k < |nodes| - 1 :: nodes[k].next == nodes[k + 1]
  }

  ghost function Last(nodes: seq<PaxPair>): PaxPair? {
    if nodes == [] then null else nodes[|nodes| - 1]
  }

  ghost predicate Distinct(nodes: seq<PaxPair>) {
    forall i, j | 0 <= i < j < |nodes| :: nodes[i] != nodes[j]
  }

  ghost predicate Apart(a: seq<PaxPair>, b: seq<PaxPair>) {
    forall i, j | 0 <= i < |a| && 0 <= j < |b| :: a[i] != b[j]
  }

  ghost predicate Partition(kept: seq<PaxPair>, removed: seq<PaxPair>, rest: seq<PaxPair>) {
    && Distinct(kept) && Distinct(removed) && Distinct(rest)
    && Apart(kept, removed) && Apart(kept, rest) && Apart(removed, rest)
  }

  lemma PartitionStep(kept: seq<PaxPair>, removed: seq<PaxPair>, rest: seq<PaxPair>)
    requires Partition(kept, removed, rest) && rest != []
    ensures Partition(kept + [rest[0]], removed, rest[1..])
    ensures Partition(kept, removed + [rest[0]], rest[1..])
  {
  }

  lemma FirstMatch(was: seq<PaxPair>, i: nat, keyword: string)
    requires i < |was| && was[i].keyword == keyword && Matching(was[..i], keyword) == []
    ensures Matching(was, keyword) != [] && Matching(was, keyword)[0] == was[i]
    ensures WithoutFirst(was, keyword) == was[..i] + was[i + 1..]
  {
    assert was[..i + 1][..i] == was[..i];
    MatchingPrefix(was, i + 1, keyword);
    NoMatchBefore(was, i, keyword, 0);
    assert was[0..] == was;
  }

  lemma {:induction false} NoMatchBefore(was: seq<PaxPair>, i: nat, keyword: string, from: nat)
    requires from <= i < |was| && was[i].keyword == keyword && Matching(was[..i], keyword) == []
    ensures WithoutFirst(was[from..], keyword) == was[from..i] + was[i + 1..]
    ensures Others(was[..i], keyword) == was[..i]
    decreases i - from
  {
    AllOthers(was[..i], keyword);
    if from < i {
      assert was[..i][from] == was[from];
      NoMatchBefore(was, i, keyword, from + 1);
      assert was[from..][1..] == was[from + 1..];
      assert was[from..i] + was[i + 1..] == [was[from]] + (was[from + 1..i] + was[i + 1..]);
    }
  }

  lemma {:induction false} NoMatch(nodes: seq<PaxPair>, keyword: string)
    requires Matching(nodes, keyword) == []
    ensures Others(nodes, keyword) == nodes && WithoutFirst(nodes, keyword) == nodes
  {
    AllOthers(nodes, keyword);
    SkipsAll(nodes, keyword);
  }

  lemma {:induction false} SkipsAll(nodes: seq<PaxPair>, keyword: string)
    requires forall k | 0 <= k < |nodes| :: nodes[k].keyword != keyword
    ensures WithoutFirst(nodes, keyword) == nodes
  {
    if nodes != [] { SkipsAll(nodes[1..], keyword); }
  }

  lemma {:induction false} AllOthers(nodes: seq<PaxPair>, keyword: string)
    requires Matching(nodes, keyword) == []
    ensures Others(nodes, keyword) == nodes && forall k | 0 <= k < |nodes| :: nodes[k].keyword != keyword
  {
    if nodes != [] {
      AllOthers(nodes[..|nodes| - 1], keyword);
      assert nodes == nodes[..|nodes| - 1] + [nodes[|nodes| - 1]];
    }
  }

  function FirstOf(nodes: seq<PaxPair>): seq<PaxPair> {
    if nodes == [] then [] else nodes[..1]
  }

  /** The list after taking out the newest match. */
  function WithoutFirst(nodes: seq<PaxPair>, keyword: string): seq<PaxPair> {
    if nodes == [] then []
    else if nodes[0].keyword == keyword then nodes[1..]
    else [nodes[0]] + WithoutFirst(nodes[1..], keyword)
  }

  lemma {:induction false} MatchingPrefix(nodes: seq<PaxPair>, i: nat, keyword: string)
    requires i <= |nodes|
    ensures Matching(nodes[..i], keyword) <= Matching(nodes, keyword)
    decreases |nodes| - i
  {
    if i == |nodes| {
      assert nodes[..i] == nodes;
    } else {
      MatchingPrefix(nodes, i + 1, keyword);
      assert nodes[..i + 1][..i] == nodes[..i];
    }
  }

  // ------------------------------------------------------------ laws of the list

  lemma {:induction false} MatchingConcat(a: seq<PaxPair>, b: seq<PaxPair>, keyword: string)
    ensures Matching(a + b, keyword) == Matching(a, keyword) + Matching(b, keyword)
    ensures Others(a + b, keyword) == Others(a, keyword) + Others(b, keyword)
  {
    if b == [] {
      assert a + b == a;
    } else {
      var n := |b| - 1;
      MatchingConcat(a, b[..n], keyword);
      assert a + b == (a + b[..n]) + [b[n]] && b == b[..n] + [b[n]];
      MatchingLast(a + b[..n], b[n], keyword);
      MatchingLast(b[..n], b[n], keyword);
    }
  }

  lemma MatchingUpTo(nodes: seq<PaxPair>, i: nat, keyword: string)
    requires i < |nodes|
    ensures Matching(nodes[..i + 1], keyword)
            == Matching(nodes[..i], keyword) + if nodes[i].keyword == keyword then [nodes[i]] else []
    ensures Others(nodes[..i + 1], keyword)
            == Others(nodes[..i], keyword) + if nodes[i].keyword == keyword then [] else [nodes[i]]
  {
    assert nodes[..i + 1] == nodes[..i] + [nodes[i]];
    MatchingLast(nodes[..i], nodes[i], keyword);
  }

  lemma MatchingLast(a: seq<PaxPair>, last: PaxPair, keyword: string)
    ensures Matching(a + [last], keyword) == Matching(a, keyword) + if last.keyword == keyword then [last] else []
    ensures Others(a + [last], keyword) == Others(a, keyword) + if last.keyword == keyword then [] else [last]
  {
    assert (a + [last])[..|a|] == a;
  }

  /** Put pushes onto the stack of its keyword and touches no other; a single
      remove undoes it. */
  lemma PutPushes(pair: PaxPair, nodes: seq<PaxPair>, keyword: string)
    ensures Matching([pair] + nodes, keyword)
            == (if pair.keyword == keyword then [pair] else []) + Matching(nodes, keyword)
    ensures WithoutFirst([pair] + nodes, pair.keyword) == nodes
  {
    MatchingConcat([pair], nodes, keyword);
    assert [pair][..0] == [];
    assert ([pair] + nodes)[1..] == nodes;
  }

  /** A single remove pops the stack of its keyword: it uncovers the previous pair,
      and the pairs of every other keyword stay as they were. */
  lemma {:induction false} RemovePops(nodes: seq<PaxPair>, keyword: string, other: string)
    ensures var m := Matching(nodes, keyword);
            Matching(WithoutFirst(nodes, keyword), keyword) == if m == [] then [] else m[1..]
    ensures other != keyword ==> Matching(WithoutFirst(nodes, keyword), other) == Matching(nodes, other)
    ensures Others(WithoutFirst(nodes, keyword), keyword) == Others(nodes, keyword)
  {
    if nodes != [] {
      var head, rest := nodes[0], nodes[1..];
      assert nodes == [head] + rest && [head][..0] == [];
      MatchingConcat([head], rest, keyword);
      MatchingConcat([head], rest, other);
      if head.keyword != keyword {
        RemovePops(rest, keyword, other);
        MatchingConcat([head], WithoutFirst(rest, keyword), keyword);
        MatchingConcat([head], WithoutFirst(rest, keyword), other);
      }
    }
  }

  /** Removing all leaves no match, and the other keywords' pairs in their order. */
  lemma {:induction false} RemoveAllClears(nodes: seq<PaxPair>, keyword: string, other: string)
    ensures Matching(Others(nodes, keyword), keyword) == []
    ensures other != keyword ==> Matching(Others(nodes, keyword), other) == Matching(nodes, other)
  {
    if nodes != [] {
      var n := |nodes| - 1;
      RemoveAllClears(nodes[..n], keyword, other);
      var last := [nodes[n]];
      assert nodes == nodes[..n] + last && last[..0] == [];
      MatchingConcat(nodes[..n], last, keyword);
      MatchingConcat(nodes[..n], last, other);
      MatchingConcat(Others(nodes[..n], keyword), Others(last, keyword), keyword);
      MatchingConcat(Others(nodes[..n], keyword), Others(last, keyword), other);
    }
  }

  // The lines of the list are the lines of its value.
  lemma {:induction false} LinesOfEntries(nodes: seq<PaxPair>)
    requires AllPrintable(nodes)
    ensures PrintableEntries(EntriesOf(nodes)) && EntryLines(EntriesOf(nodes)) == LinesOf(nodes)
  {
    if nodes != [] {
      LinesOfEntries(nodes[1..]);
      assert EntriesOf(nodes)[1..] == EntriesOf(nodes[1..]);
    }
  }

  /** What pxh_write_xheader writes for any list, pxh_mkpairs turns back into the same
      keywords, texts and lines, padded or not, iff every keyword is non-empty and has
      no '='. */
  lemma WrittenListReadsBack(nodes: seq<PaxPair>, padding: nat)
    requires AllPrintable(nodes) && AllSound(EntriesOf(nodes))
    ensures ParseAll(LinesOf(nodes) + Padding(padding), []) == Ok(ReloadedAll(EntriesOf(nodes)))
            <==> AllGoodKeys(EntriesOf(nodes))
  {
    LinesOfEntries(nodes);
    XheaderRoundTrip(EntriesOf(nodes), padding);
  }
}
