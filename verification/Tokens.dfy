/**
  C strings in byte buffers, and the two tokenisers that cut them up in place: strtok_r
  (kernel/vfs.c, over kernel/string.c) and strtok (libc/src/string.c).
 */
module Tokens {
  import opened CTypes

  type Str = seq<byte>

  const SLASH: byte := 47
  const DOT: byte := 46

  predicate NoNul(s: Str) { 0 !in s }

  // ---------------------------------------------------------------- C strings

  ghost predicate Terminated(m: seq<byte>, p: nat) {
    exists q :: p <= q < |m| && m[q] == 0
  }

  /** The characters from p to the first NUL. */
  function CStr(m: seq<byte>, p: nat): (s: Str)
    requires p <= |m|
    ensures p + |s| <= |m| && s == m[p..p + |s|] && NoNul(s)
    ensures p + |s| < |m| ==> m[p + |s|] == 0
    decreases |m| - p
  {
    if p == |m| || m[p] == 0 then [] else [m[p]] + CStr(m, p + 1)
  }

  lemma CStrIs(m: seq<byte>, p: nat, n: nat)
    requires p + n < |m| && m[p + n] == 0 && NoNul(m[p..p + n])
    ensures CStr(m, p) == m[p..p + n]
    decreases n
  {
    if n > 0 {
      assert m[p] == m[p..p + n][0];
      assert m[p + 1..p + n] == m[p..p + n][1..];
      CStrIs(m, p + 1, n - 1);
    }
  }

  lemma {:induction false} CStrEnds(m: seq<byte>, p: nat)
    requires Terminated(m, p)
    ensures p + |CStr(m, p)| < |m|
    decreases |m| - p
  {
    if m[p] != 0 { CStrEnds(m, p + 1); }
  }

  lemma CStrTo(m: seq<byte>, p: nat, z: nat)
    requires p <= z < |m| && m[z] == 0 && forall i :: p <= i < z ==> m[i] != 0
    ensures CStr(m, p) == m[p..z]
  {
    CStrIs(m, p, z - p);
  }

  lemma CStrCopy(m: seq<byte>, w: seq<byte>, a: nat, b: nat)
    requires a <= b < |m| == |w| && m[b] == 0 && forall i :: a <= i < b ==> m[i] == w[i] && w[i] != 0
    ensures CStr(m, a) == w[a..b]
  {
    CStrTo(m, a, b);
  }

  // ---------------------------------------------------------------- runs of characters

  /** The first position from p on, short of z, whose character is not in d (if inside), or is
      (if not); or z. */
  function RunEnd(w: Str, d: Str, inside: bool, p: nat, z: nat): (q: nat)
    requires p <= z <= |w|
    ensures p <= q <= z
    ensures forall i :: p <= i < q ==> (w[i] in d) == inside
    ensures q < z ==> (w[q] in d) != inside
    decreases z - p
  {
    if p == z || (w[p] in d) != inside then p else RunEnd(w, d, inside, p + 1, z)
  }

  lemma RunEndIs(w: Str, d: Str, inside: bool, p: nat, z: nat, q: nat)
    requires p <= q <= z <= |w| && (forall i :: p <= i < q ==> (w[i] in d) == inside)
    requires q < z ==> (w[q] in d) != inside
    ensures RunEnd(w, d, inside, p, z) == q
    decreases q - p
  {
  }

  /** The next token of w[p..z]: where it starts and ends, or z twice. */
  function NextToken(w: Str, d: Str, p: nat, z: nat): (t: (nat, nat))
    requires p <= z <= |w|
    ensures p <= t.0 <= t.1 <= z && (t.0 < z ==> t.0 < t.1) && (t.1 < z ==> w[t.1] in d)
  {
    var a := RunEnd(w, d, true, p, z);
    (a, RunEnd(w, d, false, a, z))
  }

  /** Where the tokens of w[p..z] lie. */
  function Spans(w: Str, d: Str, p: nat, z: nat): seq<(nat, nat)>
    requires p <= z <= |w|
    decreases z - p
  {
    var (a, b) := NextToken(w, d, p, z);
    if a == z then [] else [(a, b)] + Spans(w, d, b, z)
  }

  /** The tokens of w[p..z]. */
  function SplitFrom(w: Str, d: Str, p: nat, z: nat): seq<Str>
    requires p <= z <= |w|
    decreases z - p
  {
    var (a, b) := NextToken(w, d, p, z);
    if a == z then [] else [w[a..b]] + SplitFrom(w, d, b, z)
  }

  function Split(w: Str, d: Str): seq<Str> { SplitFrom(w, d, 0, |w|) }

  /** w[i..j] is a run outside d that cannot be made longer within w[p..z]. */
  predicate MaximalRun(w: Str, d: Str, p: nat, z: nat, i: nat, j: nat)
    requires z <= |w|
  {
    && p <= i < j <= z
    && (forall k :: i <= k < j ==> w[k] !in d)
    && (i > p ==> w[i - 1] in d)
    && (j < z ==> w[j] in d)
  }

  /** Position q of w[p..z] is not inside a token. */
  predicate Boundary(w: Str, d: Str, p: nat, z: nat, q: nat)
    requires z <= |w|
  {
    p <= q <= z && (q == p || q == z || w[q] in d || w[q - 1] in d)
  }

  lemma NextTokenRun(w: Str, d: Str, p: nat, z: nat, q: nat)
    requires z <= |w| && Boundary(w, d, p, z, q)
    ensures var (a, b) := NextToken(w, d, q, z);
            && Boundary(w, d, p, z, b)
            && (a < z ==> MaximalRun(w, d, p, z, a, b))
            && (a < z && w[q] in d ==> q < a)
  {
    var a := RunEnd(w, d, true, q, z);
    if q < a { assert w[a - 1] in d; }
  }

  /** Each token is a maximal run, in order, and Split gives its characters. */
  lemma {:induction false} SpansSound(w: Str, d: Str, p: nat, z: nat, q: nat, k: nat)
    requires z <= |w| && Boundary(w, d, p, z, q) && k < |Spans(w, d, q, z)|
    ensures |SplitFrom(w, d, q, z)| == |Spans(w, d, q, z)|
    ensures var (i, j) := Spans(w, d, q, z)[k];
            && q <= i && (q < z && w[q] in d ==> q < i)
            && MaximalRun(w, d, p, z, i, j) && SplitFrom(w, d, q, z)[k] == w[i..j]
            && (k > 0 ==> Spans(w, d, q, z)[k - 1].1 < i)
    decreases z - q
  {
    NextTokenRun(w, d, p, z, q);
    SplitSpansSize(w, d, q, z);
    if k > 0 {
      var b := NextToken(w, d, q, z).1;
      SpansSound(w, d, p, z, b, k - 1);
    }
  }

  lemma {:induction false} SplitSpansSize(w: Str, d: Str, p: nat, z: nat)
    requires p <= z <= |w|
    ensures |SplitFrom(w, d, p, z)| == |Spans(w, d, p, z)|
    decreases z - p
  {
    var (a, b) := NextToken(w, d, p, z);
    if a < z { SplitSpansSize(w, d, b, z); }
  }

  /** Every maximal run from q on is one of the tokens. */
  lemma {:induction false} SpansComplete(w: Str, d: Str, p: nat, z: nat, q: nat, i: nat, j: nat)
    requires z <= |w| && p <= q <= i && MaximalRun(w, d, p, z, i, j)
    ensures (i, j) in Spans(w, d, q, z)
    decreases z - q
  {
    var (a, b) := NextToken(w, d, q, z);
    assert w[i] !in d;
    if a == i {
      RunEndIs(w, d, false, a, z, j);
    } else {
      assert w[i - 1] in d;
      assert b <= i - 1;
      SpansComplete(w, d, p, z, b, i, j);
    }
  }

  /** The tokens from p on depend only on the characters from p on. */
  lemma {:induction false} SpansLocal(w: Str, w': Str, d: Str, p: nat, z: nat)
    requires p <= z <= |w| && z <= |w'| && forall i :: p <= i < z ==> w'[i] == w[i]
    ensures Spans(w', d, p, z) == Spans(w, d, p, z) && SplitFrom(w', d, p, z) == SplitFrom(w, d, p, z)
    decreases z - p
  {
    var (a, b) := NextToken(w, d, p, z);
    RunEndIs(w', d, true, p, z, a);
    RunEndIs(w', d, false, a, z, b);
    if a < z {
      assert w'[a..b] == w[a..b];
      SpansLocal(w, w', d, b, z);
    }
  }

  /** A delimiter at p separates nothing. */
  lemma SpansSkip(w: Str, d: Str, p: nat, z: nat)
    requires p < z <= |w| && w[p] in d
    ensures Spans(w, d, p, z) == Spans(w, d, p + 1, z) && SplitFrom(w, d, p, z) == SplitFrom(w, d, p + 1, z)
  {
    assert RunEnd(w, d, true, p, z) == RunEnd(w, d, true, p + 1, z);
  }

  // ---------------------------------------------------------------- one call of a tokeniser

  /** A buffer being cut up: where the next call starts, and where the text's NUL is. */
  datatype Scan = Scan(m: seq<byte>, save: nat, end: nat) {
    ghost predicate Ready() {
      save <= end < |m| && m[end] == 0 && forall i :: save <= i < end ==> m[i] != 0
    }

    /** The tokens still to come. */
    function Left(d: Str): seq<(nat, nat)>
      requires save <= end < |m|
    {
      Spans(m, d, save, end)
    }
  }

  const NULL: int := -1

  /** strtok_r(NULL, d, &save): the token's position or NULL, and what is left to scan. */
  function Cut(s: Scan, d: Str): (r: (int, Scan))
    requires s.save <= s.end < |s.m|
  {
    var (a, b) := NextToken(s.m, d, s.save, s.end);
    if a == s.end then (NULL, s.(save := a))
    else if b == s.end then (a, s.(save := b))
    else (a, Scan(s.m[b := 0], b + 1, s.end))
  }

  /** m' has every byte below p, and every NUL, of m. */
  ghost predicate Settled(m: seq<byte>, m': seq<byte>, p: nat) {
    |m| == |m'| && forall i :: 0 <= i < |m| && (i < p || m[i] == 0) ==> m'[i] == m[i]
  }

  /** What one call leaves of the buffer. */
  lemma CutFrame(s: Scan, d: Str)
    requires s.Ready()
    ensures var s' := Cut(s, d).1;
            && s'.Ready() && s.save <= s'.save && s'.end == s.end && Settled(s.m, s'.m, s.save)
            && (forall i :: s'.save <= i < |s.m| ==> s'.m[i] == s.m[i])
  {
  }

  /** What one call returns: the next maximal run, now ended by a NUL of its own. */
  lemma CutToken(s: Scan, d: Str)
    requires s.Ready()
    ensures var ((a, b), (t, s')) := (NextToken(s.m, d, s.save, s.end), Cut(s, d));
            && (t == NULL <==> a == s.end)
            && (t != NULL ==>
                  && t == a && a < b <= s'.save && s'.m[b] == 0
                  && forall i :: a <= i < b ==> s'.m[i] == s.m[i])
  {
  }

  lemma SpansUnfold(w: Str, d: Str, p: nat, z: nat, a: nat, b: nat)
    requires p <= z <= |w| && NextToken(w, d, p, z) == (a, b)
    ensures a == z ==> Spans(w, d, p, z) == []
    ensures a < z ==>
              && Spans(w, d, p, z) != [] && Spans(w, d, p, z)[0] == (a, b)
              && Spans(w, d, p, z)[1..] == Spans(w, d, b, z)
  {
  }

  lemma SpansEmpty(w: Str, d: Str, z: nat)
    requires z <= |w|
    ensures Spans(w, d, z, z) == []
  {
  }

  lemma SpansPastDelim(w: Str, d: Str, b: nat, z: nat)
    requires b < z <= |w| && w[b] in d
    ensures Spans(w[b := 0], d, b + 1, z) == Spans(w, d, b, z)
  {
    hide Spans, SplitFrom, NextToken;
    SpansSkip(w, d, b, z);
    SpansLocal(w, w[b := 0], d, b + 1, z);
  }

  /** The calls still to come will see exactly the tokens after it. */
  lemma CutLeft(s: Scan, d: Str)
    requires s.Ready()
    ensures var s' := Cut(s, d).1;
            s'.Ready() && s'.Left(d) == (if s.Left(d) == [] then [] else s.Left(d)[1..])
  {
    hide NextToken;
    CutFrame(s, d);
    var (a, b) := NextToken(s.m, d, s.save, s.end);
    SpansUnfold(s.m, d, s.save, s.end, a, b);
    if a < s.end && b < s.end { SpansPastDelim(s.m, d, b, s.end); }
    else { SpansEmpty(s.m, d, s.end); }
  }

  /** The same, by the tokens' characters: a path walker's view of strtok_r. */
  lemma CutComponents(s: Scan, d: Str)
    requires s.Ready()
    ensures var ((t, s'), cs) := (Cut(s, d), SplitFrom(s.m, d, s.save, s.end));
            && s'.Ready() && |s'.m| == |s.m| && s'.end == s.end
            && (t == NULL <==> cs == [])
            && (t != NULL ==>
                  && 0 <= t < |s.m| && Terminated(s'.m, t) && CStr(s'.m, t) == cs[0]
                  && SplitFrom(s'.m, d, s'.save, s'.end) == cs[1..])
  {
    hide Cut;
    CutFrame(s, d);
    CutToken(s, d);
    CutRest(s, d);
    var (a, b) := NextToken(s.m, d, s.save, s.end);
    if a < s.end { CStrCopy(Cut(s, d).1.m, s.m, a, b); }
  }

  lemma SplitUnfold(w: Str, d: Str, p: nat, z: nat, a: nat, b: nat)
    requires p <= z <= |w| && NextToken(w, d, p, z) == (a, b)
    ensures SplitFrom(w, d, p, z) == (if a == z then [] else [w[a..b]] + SplitFrom(w, d, b, z))
  {
  }

  lemma SplitPastDelim(w: Str, d: Str, b: nat, z: nat)
    requires b < z <= |w| && w[b] in d
    ensures SplitFrom(w[b := 0], d, b + 1, z) == SplitFrom(w, d, b, z)
  {
    hide Spans, SplitFrom, NextToken;
    SpansSkip(w, d, b, z);
    SpansLocal(w, w[b := 0], d, b + 1, z);
  }

  lemma CutRest(s: Scan, d: Str)
    requires s.Ready()
    ensures var (s', (a, b)) := (Cut(s, d).1, NextToken(s.m, d, s.save, s.end));
            s'.Ready() && SplitFrom(s.m, d, s.save, s.end) ==
                          (if a == s.end then [] else [s.m[a..b]] + SplitFrom(s'.m, d, s'.save, s'.end))
  {
    hide NextToken;
    CutFrame(s, d);
    var (a, b) := NextToken(s.m, d, s.save, s.end);
    SplitUnfold(s.m, d, s.save, s.end, a, b);
    if a < s.end && b < s.end { SplitPastDelim(s.m, d, b, s.end); }
  }

  /** Delimiters at the end add no token. */
  lemma {:induction false} SplitTrim(w: Str, d: Str, p: nat, z: nat, z': nat)
    requires p <= z' <= z <= |w| && forall i :: z' <= i < z ==> w[i] in d
    ensures SplitFrom(w, d, p, z) == SplitFrom(w, d, p, z')
    decreases z' - p
  {
    var (a, b) := NextToken(w, d, p, z');
    if a < z' {
      RunEndIs(w, d, true, p, z, a);
      RunEndIs(w, d, false, a, z, b);
      SplitTrim(w, d, b, z, z');
    } else {
      RunEndIs(w, d, true, p, z, z);
    }
  }

  // ---------------------------------------------------------------- every call of a tokeniser

  /** Scan i + 1 is what a call makes of scan i. */
  ghost predicate Calls(ss: seq<Scan>, d: Str, i: nat)
    requires i + 1 < |ss|
  {
    ss[i].Ready() && ss[i + 1] == Cut(ss[i], d).1
  }

  /** A run of calls on one buffer. */
  ghost predicate Run(ss: seq<Scan>, d: Str) {
    |ss| > 0 && ss[0].Ready() && forall i :: 0 <= i < |ss| - 1 ==> Calls(ss, d, i)
  }

  /** s' has what s has from s'.save on, and s's settled bytes. */
  ghost predicate Later(s: Scan, s': Scan) {
    && s'.Ready() && s.save <= s'.save && s'.end == s.end && Settled(s.m, s'.m, s.save)
    && (forall i :: s'.save <= i < |s.m| ==> s'.m[i] == s.m[i])
  }

  lemma CallLater(ss: seq<Scan>, d: Str, i: nat)
    requires i + 1 < |ss| && Calls(ss, d, i)
    ensures Later(ss[i], ss[i + 1])
  {
    CutFrame(ss[i], d);
  }

  lemma LaterTrans(a: Scan, b: Scan, c: Scan)
    requires a.Ready() && Later(a, b) && Later(b, c)
    ensures Later(a, c)
  {
  }

  lemma {:induction false} RunLater(ss: seq<Scan>, d: Str, i: nat, j: nat)
    requires Run(ss, d) && i <= j < |ss|
    ensures ss[i].Ready() && Later(ss[i], ss[j])
    decreases j
  {
    if j > 0 {
      if i < j {
        RunLater(ss, d, i, j - 1);
        CallLater(ss, d, j - 1);
        LaterTrans(ss[i], ss[j - 1], ss[j]);
      } else {
        RunLater(ss, d, j - 1, j - 1);
        CallLater(ss, d, j - 1);
      }
    }
  }

  lemma {:induction false} RunLeft(ss: seq<Scan>, d: Str, k: nat)
    requires Run(ss, d) && k < |ss|
    ensures ss[k].Ready()
    ensures ss[k].Left(d) == (if k <= |ss[0].Left(d)| then ss[0].Left(d)[k..] else [])
  {
    hide Spans, Cut, NextToken;
    if k > 0 {
      RunLeft(ss, d, k - 1);
      RunLater(ss, d, k, k);
      assert Calls(ss, d, k - 1);
      CutLeft(ss[k - 1], d);
    }
  }

  /** Call k + 1 returns token k while there is one, and NULL ever after. */
  lemma CallGives(ss: seq<Scan>, d: Str, k: nat)
    requires Run(ss, d) && k < |ss|
    ensures ss[k].Ready()
    ensures Cut(ss[k], d).0 == (if k < |ss[0].Left(d)| then ss[0].Left(d)[k].0 else NULL)
  {
    RunLeft(ss, d, k);
    CutToken(ss[k], d);
  }

  /** Call k + 1 finds the characters of token k as they were at first. */
  lemma TokenFound(ss: seq<Scan>, d: Str, k: nat)
    requires Run(ss, d) && k < |ss| && k < |ss[0].Left(d)|
    ensures var ((a, b), r) := (ss[0].Left(d)[k], ss[k]);
            && r.Ready() && NextToken(r.m, d, r.save, r.end) == (a, b) && r.save <= a < b <= r.end == ss[0].end
            && |r.m| == |ss[0].m| && (forall i :: a <= i < b ==> r.m[i] == ss[0].m[i])
  {
    RunLater(ss, d, 0, k);
    RunLeft(ss, d, k);
    var r := ss[k];
    var (a, b) := NextToken(r.m, d, r.save, r.end);
    SpansUnfold(r.m, d, r.save, r.end, a, b);
  }

  /** Once returned, a token is a C string of its original characters, whatever calls follow. */
  lemma TokenStays(ss: seq<Scan>, d: Str, k: nat, j: nat)
    requires Run(ss, d) && k < j < |ss| && k < |ss[0].Left(d)|
    ensures var (a, b) := ss[0].Left(d)[k];
            a < b <= ss[0].end && |ss[j].m| == |ss[0].m| && CStr(ss[j].m, a) == ss[0].m[a..b]
  {
    var (a, b) := ss[0].Left(d)[k];
    TokenFound(ss, d, k);
    CutToken(ss[k], d);
    assert Calls(ss, d, k);
    RunLater(ss, d, k + 1, j);
    RunLater(ss, d, 0, j);
    CStrCopy(ss[j].m, ss[0].m, a, b);
  }

  /** strtok's save pointer for a scan: NULL once the text is used up. */
  function Libc(s: Scan): int { if s.save == s.end then NULL else s.save }

  /** strtok(NULL, d) on the buffer m with the given save pointer. */
  function LibcCut(m: seq<byte>, save: int, end: nat, d: Str): (r: (int, seq<byte>, int))
    requires save != NULL ==> 0 <= save <= end < |m|
  {
    if save == NULL then (NULL, m, NULL)
    else
      var (t, s) := Cut(Scan(m, save, end), d);
      (t, s.m, Libc(s))
  }

  /** Call for call, strtok returns what strtok_r returns and leaves the same buffer. */
  lemma LibcSame(ss: seq<Scan>, d: Str, k: nat)
    requires Run(ss, d) && k + 1 < |ss|
    ensures ss[k].Ready()
    ensures LibcCut(ss[k].m, Libc(ss[k]), ss[k].end, d) == (Cut(ss[k], d).0, ss[k + 1].m, Libc(ss[k + 1]))
  {
    RunLater(ss, d, k, k);
    assert Calls(ss, d, k);
  }

  // ---------------------------------------------------------------- the functions themselves

  /** Whether c is one of the characters of set: the inner loop of every scan. */
  method IsOneOf(c: byte, set_: Str) returns (found: bool)
    ensures found == (c in set_)
  {
    found := false;
    var a := 0;
    while a < |set_|
      invariant a <= |set_|
      invariant found == (c in set_[..a])
    {
      if c == set_[a] { return true; }
      a := a + 1;
    }
  }

  method StrSpn(buf: array<byte>, str: nat, accept: Str, ghost end: nat) returns (count: nat)
    requires Scan(buf[..], str, end).Ready() && NoNul(accept)
    ensures str + count == RunEnd(buf[..], accept, true, str, end)
  {
    count := 0;
    while buf[str + count] != 0
      invariant str + count <= end
      invariant RunEnd(buf[..], accept, true, str + count, end) == RunEnd(buf[..], accept, true, str, end)
      decreases end - count
    {
      var found := IsOneOf(buf[str + count], accept);
      if !found { break; }
      count := count + 1;
    }
  }

  method StrPBrk(buf: array<byte>, str: nat, accept: Str, ghost end: nat) returns (p: int)
    requires Scan(buf[..], str, end).Ready() && NoNul(accept)
    ensures var b := RunEnd(buf[..], accept, false, str, end); p == if b < end then b else NULL
  {
    var s := str;
    while buf[s] != 0
      invariant str <= s <= end
      invariant RunEnd(buf[..], accept, false, s, end) == RunEnd(buf[..], accept, false, str, end)
      decreases end - s
    {
      var found := IsOneOf(buf[s], accept);
      if found { return s; }
      s := s + 1;
    }
    return NULL;
  }

  method StrLen(buf: array<byte>, str: nat, ghost end: nat) returns (n: nat)
    requires Scan(buf[..], str, end).Ready()
    ensures str + n == end
  {
    n := 0;
    while buf[str + n] != 0
      invariant str + n <= end
      decreases end - n
    {
      n := n + 1;
    }
  }

  /** strtok_r; start is str, or *saveptr when str is NULL. */
  method StrTokR(buf: array<byte>, start: nat, delim: Str, ghost end: nat) returns (token: int, save: nat)
    requires Scan(buf[..], start, end).Ready() && NoNul(delim)
    modifies buf
    ensures (token, Scan(buf[..], save, end)) == Cut(old(Scan(buf[..], start, end)), delim)
  {
    var n := StrSpn(buf, start, delim, end);
    var str := start + n;
    if buf[str] == 0 {
      return NULL, str;
    }
    token := str;
    var p := StrPBrk(buf, token, delim, end);
    if p == NULL {
      var len := StrLen(buf, token, end);
      save := token + len;
    } else {
      buf[p] := 0;
      save := p + 1;
    }
  }

  /** The libc tokeniser, whose save pointer is a static variable: NULL once the text is used up. */
  class StrTok {
    var save: int

    constructor ()
      ensures save == NULL
    {
      save := NULL;
    }

    method SkipDelims(buf: array<byte>, start: nat, delim: Str, ghost end: nat) returns (s: nat)
      requires Scan(buf[..], start, end).Ready() && NoNul(delim)
      ensures s == RunEnd(buf[..], delim, true, start, end)
    {
      s := start;
      while buf[s] != 0
        invariant start <= s <= end
        invariant RunEnd(buf[..], delim, true, s, end) == RunEnd(buf[..], delim, true, start, end)
        decreases end - s
      {
        var isDelim := IsOneOf(buf[s], delim);
        if !isDelim { break; }
        s := s + 1;
      }
    }

    /** strtok(str, delim); str is NULL to go on from save. The token and the buffer are those
        strtok_r gives, and the NULL save pointer stands for strtok_r's at the text's end. */
    method Call(buf: array<byte>, str: int, delim: Str, ghost end: nat) returns (token: int)
      requires str == NULL || str >= 0
      requires var from := if str == NULL then save else str;
               from != NULL ==> 0 <= from && Scan(buf[..], from, end).Ready()
      requires NoNul(delim)
      modifies buf, this
      ensures (token, buf[..], save) == LibcCut(old(buf[..]), if str == NULL then old(save) else str, end, delim)
    {
      if str != NULL { save := str; } else if save == NULL { return NULL; }
      var s := SkipDelims(buf, save, delim, end);
      if buf[s] == 0 {
        save := NULL;
        return NULL;
      }
      token := s;
      ghost var m := buf[..];
      while buf[s] != 0
        invariant token <= s <= end && buf[..] == m
        invariant RunEnd(m, delim, false, s, end) == RunEnd(m, delim, false, token, end)
        decreases end - s
      {
        var isDelim := IsOneOf(buf[s], delim);
        if isDelim {
          buf[s] := 0;
          s := s + 1;
          break;
        }
        s := s + 1;
      }
      save := if buf[s] != 0 then s else NULL;
    }
  }
}
