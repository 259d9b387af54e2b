/** Appending to a buffer that grows by doubling. */
module StrlCatGrow {
  import opened CString

  // ------------------------------------------------------------ sizes

  /** The first doubling of a size that exceeds a total. */
  function LeastDoubling(sz: nat, total: nat): nat
    requires sz > 0
    decreases total - sz
  {
    if sz > total then sz else LeastDoubling(2 * sz, total)
  }

  function Doubled(sz: nat, k: nat): nat {
    if k == 0 then sz else 2 * Doubled(sz, k - 1)
  }

  lemma {:induction false} DoubledTwice(sz: nat, k: nat)
    ensures Doubled(2 * sz, k) == Doubled(sz, k + 1)
  {
    if k > 0 { DoubledTwice(sz, k - 1); }
  }

  lemma {:induction false} DoubledGrows(sz: nat, k: nat)
    ensures Doubled(sz, k) >= sz
  {
    if k > 0 { DoubledGrows(sz, k - 1); }
  }

  /** It is a doubling, it exceeds the total, and no smaller doubling does. */
  lemma {:induction false} LeastDoublingIsLeast(sz: nat, total: nat, k: nat)
    requires sz > 0
    ensures LeastDoubling(sz, total) > total
    ensures exists j :: Doubled(sz, j) == LeastDoubling(sz, total)
    ensures Doubled(sz, k) > total ==> LeastDoubling(sz, total) <= Doubled(sz, k)
    decreases total - sz
  {
    if sz > total {
      assert Doubled(sz, 0) == LeastDoubling(sz, total);
      DoubledGrows(sz, k);
    } else {
      var m := if k > 0 then k - 1 else 0;
      LeastDoublingIsLeast(2 * sz, total, m);
      var j :| Doubled(2 * sz, j) == LeastDoubling(2 * sz, total);
      DoubledTwice(sz, j);
      if k > 0 { DoubledTwice(sz, m); }
    }
  }

  /** What growing comes to when realloc grants the sizes it is asked for or not:
      whether a buffer is left, and the last size asked for. */
  function Grown(sz: nat, total: nat, grants: nat -> bool): (bool, nat)
    requires sz > 0
    decreases total - sz
  {
    if sz > total then (true, sz)
    else if !grants(2 * sz) then (false, 2 * sz)
    else Grown(2 * sz, total, grants)
  }

  /** A buffer is left exactly when every doubling up to the least sufficient one is
      granted, and then it has that size; otherwise the size is the first refused. */
  lemma {:induction false} GrownIff(sz: nat, total: nat, grants: nat -> bool)
    requires sz > 0
    ensures var (ok, size) := Grown(sz, total, grants);
            var least := LeastDoubling(sz, total);
            && (ok ==> size == least && forall k :: sz < Doubled(sz, k) <= least ==> grants(Doubled(sz, k)))
            && (!ok ==> !grants(size) && exists k :: sz < Doubled(sz, k) <= least && size == Doubled(sz, k))
            && (!ok ==> forall k :: sz < Doubled(sz, k) < size ==> grants(Doubled(sz, k)))
    decreases total - sz
  {
    if sz <= total {
      var least := LeastDoubling(sz, total);
      LeastDoublingIsLeast(2 * sz, total, 0);
      assert Doubled(sz, 0 + 1) == 2 * sz;
      LeastAtLeast(2 * sz, total);
      NothingBetween(sz);
      if grants(2 * sz) {
        GrownIff(2 * sz, total, grants);
        var (ok, size) := Grown(2 * sz, total, grants);
        if ok {
          GrantedBelow(sz, least + 1, grants);
        } else {
          GrantedBelow(sz, size, grants);
          var k :| 2 * sz < Doubled(2 * sz, k) <= least && size == Doubled(2 * sz, k);
          DoubledTwice(sz, k);
        }
      }
    }
  }

  lemma NothingBetween(sz: nat)
    ensures forall k :: Doubled(sz, k) > sz ==> Doubled(sz, k) >= 2 * sz
  {
    forall k: nat | Doubled(sz, k) > sz ensures Doubled(sz, k) >= 2 * sz {
      DoubledTwice(sz, k - 1);
      DoubledGrows(2 * sz, k - 1);
    }
  }

  // Granted from the second doubling on, and the first one too.
  lemma GrantedBelow(sz: nat, bound: nat, grants: nat -> bool)
    requires sz > 0 && grants(2 * sz)
    requires forall k :: 2 * sz < Doubled(2 * sz, k) < bound ==> grants(Doubled(2 * sz, k))
    ensures forall k :: sz < Doubled(sz, k) < bound ==> grants(Doubled(sz, k))
  {
    forall k: nat | sz < Doubled(sz, k) < bound ensures grants(Doubled(sz, k)) {
      DoubledTwice(sz, k - 1);
      DoubledGrows(2 * sz, k - 1);
    }
  }

  lemma {:induction false} LeastAtLeast(sz: nat, total: nat)
    requires sz > 0
    ensures LeastDoubling(sz, total) >= sz
    decreases total - sz
  {
    if sz <= total { LeastAtLeast(2 * sz, total); }
  }

  // ------------------------------------------------------------ the buffer

  // The buffer holds a string with its NUL.
  ghost predicate HoldsText(a: array<char>, text: string)
    reads a
  {
    |text| < a.Length && '\0' !in text && a[..|text|] == text && a[|text|] == '\0'
  }

  lemma HoldsCText(a: array<char>, text: string)
    requires HoldsText(a, text)
    ensures CText(a[..]) == text
  {
    assert a[..] == text + a[|text|..];
    CTextOf(text, a[|text|..]);
  }

  /** strlcat with the buffer's whole size: as much of src as fits, and the length
      there would be. */
  method Strlcat(a: array<char>, src: string, ghost text: string) returns (catted: nat)
    requires HoldsText(a, text) && '\0' !in src
    modifies a
    ensures catted == |text| + |src|
    ensures HoldsText(a, if catted < a.Length then text + src else text + src[..a.Length - 1 - |text|])
  {
    var end := 0;
    while a[end] != '\0'
      invariant 0 <= end <= |text|
      decreases |text| - end
    {
      assert a[..|text|][end] == text[end];
      end := end + 1;
    }
    var n := if end + |src| < a.Length then |src| else a.Length - 1 - end;
    for k := 0 to n
      invariant a[..end + k] == text + src[..k]
    {
      a[end + k] := src[k];
    }
    a[end + n] := '\0';
    assert src[..|src|] == src;
    return end + |src|;
  }

  /** realloc to twice the size, when granted. */
  method Doubling(a: array<char>, ghost text: string, grant: bool) returns (r: array?<char>)
    requires HoldsText(a, text)
    ensures r != null <==> grant
    ensures r != null ==> fresh(r) && r.Length == 2 * a.Length && HoldsText(r, text)
  {
    if !grant {
      return null;
    }
    r := new char[2 * a.Length];
    forall i | 0 <= i < a.Length {
      r[i] := a[i];
    }
    assert r[..|text|] == a[..|text|];
  }

  lemma TakeMore(text: string, b: string, n: nat, m: nat)
    requires n + m <= |b|
    ensures text + b[..n] + b[n..][..m] == text + b[..n + m]
    ensures n + m == |b| ==> text + b[..n] + b[n..] == text + b
  {
    assert b[..n] + b[n..][..m] == b[..n + m];
    assert b[..n] + b[n..] == b;
  }

  /** STRLCATGROW */
  method StrlCatGrow(a0: array<char>, b: string, grants: nat -> bool, ghost text: string)
    returns (a: array?<char>, sz: nat)
    requires HoldsText(a0, text) && '\0' !in b
    modifies a0
    ensures (a != null, sz) == Grown(a0.Length, |text| + |b|, grants)
    ensures a != null ==> a.Length == sz && (a == a0 || fresh(a)) && HoldsText(a, text + b)
  {
    a, sz := a0, a0.Length;
    var remain := 0;
    while a != null
      invariant a != null ==> a.Length == sz > 0 && (a == a0 || fresh(a)) && remain <= |b|
      invariant a != null ==> HoldsText(a, text + b[..remain])
      invariant sz > 0
      invariant Grown(a0.Length, |text| + |b|, grants)
                == if a != null then Grown(sz, |text| + |b|, grants) else (false, sz)
      decreases if a != null then 1 else 0, |text| + |b| - sz
    {
      var catted := Strlcat(a, b[remain..], text + b[..remain]);
      if catted < sz {
        TakeMore(text, b, remain, |b| - remain);
        return;
      }
      TakeMore(text, b, remain, sz - 1 - |text| - remain);
      remain := |b| - (catted - sz + 1);
      a := Doubling(a, text + b[..remain], grants(2 * sz));
      sz := sz * 2;
    }
  }
}
