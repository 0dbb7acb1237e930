/**
 * The portable string helpers of utils.h: ASCII case mapping, the
 * delimiter scanners, strmlcpy, white-space skipping and trimming, and the
 * quote-aware jump.  A C string is modelled as its bytes; the scanners stop
 * at a NUL byte or at the end of the sequence, whichever comes first.
 */
module Text {
  import opened Arith
  import opened Opt

  const Nul: U8 := 0
  const Space: U8 := ' ' as int

  /** Tab, line feed, vertical tab, form feed, carriage return (0x09 to
      0x0D) and `' '`: the bytes skip, bskip and trim pass over. */
  predicate IsSpace(c: U8) {
    0x09 <= c <= 0x0D || c == Space
  }

  predicate IsUpper(c: U8) {
    'A' as int <= c <= 'Z' as int
  }

  predicate IsLower(c: U8) {
    'a' as int <= c <= 'z' as int
  }

  /** utils.h LoChar: a capital becomes its small letter, every other byte
      stays. */
  function LoChar(c: U8): (r: U8)
    ensures IsUpper(c) ==> IsLower(r) && r == c + 0x20
    ensures !IsUpper(c) ==> r == c
  {
    if IsUpper(c) then c + 0x20 else c
  }

  /** utils.h UpChar: a small letter becomes its capital, every other byte
      stays. */
  function UpChar(c: U8): (r: U8)
    ensures IsLower(c) ==> IsUpper(r) && r + 0x20 == c
    ensures !IsLower(c) ==> r == c
  {
    if IsLower(c) then c - 0x20 else c
  }

  /** The two mappings undo each other on letters and are idempotent. */
  lemma CaseInverse(c: U8)
    ensures IsUpper(c) ==> UpChar(LoChar(c)) == c
    ensures IsLower(c) ==> LoChar(UpChar(c)) == c
    ensures LoChar(LoChar(c)) == LoChar(c) && UpChar(UpChar(c)) == UpChar(c)
  {
  }

  /** The length of the longest prefix of `s` whose bytes all satisfy
      `keep`: the common shape of the scanners. */
  function Prefix(s: seq<U8>, keep: U8 -> bool): (l: nat)
    ensures l <= |s|
    ensures forall i :: 0 <= i < l ==> keep(s[i])
    ensures l < |s| ==> !keep(s[l])
  {
    if |s| == 0 || !keep(s[0]) then 0 else 1 + Prefix(s[1..], keep)
  }

  /** The scanners of utils.h, each named after the field it measures. */
  datatype Scanner = Line | Sect | Col | Tag | Field | Dom | Segm | VDef | VNam

  /** The delimiter each scanner stops at. */
  function Delimiter(k: Scanner): U8 {
    match k
    case Line => '\n' as int
    case Sect => 0x0B
    case Col => ':' as int
    case Tag => '>' as int
    case Field => '|' as int
    case Dom => '.' as int
    case Segm => '/' as int
    case VDef => '&' as int
    case VNam => '=' as int
  }

  /**
   * utils.h linelen, sectlen, collen, taglen, fieldlen, domlen, segmlen,
   * vdeflen and vnamlen (portable versions): the index of the first NUL or
   * delimiter, so 0 for an empty string.
   */
  function ScanLen(k: Scanner, s: seq<U8>): (l: nat)
    ensures l <= |s|
    ensures forall i :: 0 <= i < l ==> s[i] != Nul && s[i] != Delimiter(k)
    ensures l < |s| ==> s[l] == Nul || s[l] == Delimiter(k)
    ensures (|s| == 0 || s[0] == Nul) ==> l == 0
  {
    var d := Delimiter(k);
    Prefix(s, c => c != Nul && c != d)
  }

  /** utils.h wordlen: the number of leading bytes above the space. */
  function WordLen(s: seq<U8>): (l: nat)
    ensures l <= |s|
    ensures forall i :: 0 <= i < l ==> s[i] > Space
    ensures l < |s| ==> s[l] <= Space
  {
    Prefix(s, c => c > Space)
  }

  /** utils.h blanklen: the number of leading bytes that are not NUL and
      not above the space. */
  function BlankLen(s: seq<U8>): (l: nat)
    ensures l <= |s|
    ensures forall i :: 0 <= i < l ==> Nul < s[i] <= Space
    ensures l < |s| ==> s[l] == Nul || s[l] > Space
  {
    Prefix(s, c => c != Nul && c <= Space)
  }

  /** A word and the blanks after it split the string at the word's end. */
  lemma WordThenBlank(s: seq<U8>)
    ensures WordLen(s) <= |s|
    ensures BlankLen(s[WordLen(s)..]) == 0 ==>
              WordLen(s) == |s| || s[WordLen(s)] == Nul
    ensures WordLen(s) > 0 ==> BlankLen(s) == 0
  {
  }

  /** The number of bytes lowercase/uppercase look at: at most `n`, and
      none from the first NUL on. */
  function Reach(s: seq<U8>, n: int): (m: nat)
    ensures m <= |s| && (n >= 0 ==> m <= n)
    ensures forall i :: 0 <= i < m ==> s[i] != Nul
    ensures m < |s| && m < n ==> s[m] == Nul
  {
    var l := Prefix(s, c => c != Nul);
    if n < l then (if n < 0 then 0 else n) else l
  }

  /** utils.h lowercase: capitals among the first `n` bytes before the NUL
      become small letters; nothing else changes. */
  function Lowercase(s: seq<U8>, n: int): (r: seq<U8>)
    ensures |r| == |s|
    ensures forall i :: 0 <= i < |s| ==> r[i] == (if i < Reach(s, n) then LoChar(s[i]) else s[i])
    decreases |s|
  {
    if n <= 0 || |s| == 0 || s[0] == Nul then s
    else
      var t := Lowercase(s[1..], n - 1);
      ReachStep(s, n);
      [LoChar(s[0])] + t
  }

  /** utils.h uppercase: small letters among the first `n` bytes before the
      NUL become capitals; nothing else changes. */
  function Uppercase(s: seq<U8>, n: int): (r: seq<U8>)
    ensures |r| == |s|
    ensures forall i :: 0 <= i < |s| ==> r[i] == (if i < Reach(s, n) then UpChar(s[i]) else s[i])
    decreases |s|
  {
    if n <= 0 || |s| == 0 || s[0] == Nul then s
    else
      var t := Uppercase(s[1..], n - 1);
      ReachStep(s, n);
      [UpChar(s[0])] + t
  }

  /** Looking at one byte less of the rest of the string. */
  lemma ReachStep(s: seq<U8>, n: int)
    requires n > 0 && |s| > 0 && s[0] != Nul
    ensures Reach(s, n) == 1 + Reach(s[1..], n - 1)
  {
    assert Prefix(s, c => c != Nul) == 1 + Prefix(s[1..], c => c != Nul);
  }

  /** Only letters change, and only to the other case. */
  lemma CaseOnlyLetters(s: seq<U8>, n: int)
    ensures forall i :: 0 <= i < |s| && Lowercase(s, n)[i] != s[i] ==>
              IsUpper(s[i]) && Lowercase(s, n)[i] == s[i] + 0x20
    ensures forall i :: 0 <= i < |s| && Uppercase(s, n)[i] != s[i] ==>
              IsLower(s[i]) && Uppercase(s, n)[i] + 0x20 == s[i]
  {
  }

  /** The mapping keeps the NUL where it was, so the reach is the same. */
  lemma {:induction false} ReachKept(s: seq<U8>, r: seq<U8>, n: int)
    requires |r| == |s|
    requires forall i :: 0 <= i < |s| ==> (r[i] == Nul <==> s[i] == Nul)
    ensures Reach(r, n) == Reach(s, n)
    decreases |s|
  {
    if |s| > 0 && s[0] != Nul && n > 0 {
      ReachStep(s, n);
      ReachStep(r, n);
      ReachKept(s[1..], r[1..], n - 1);
    } else if |s| > 0 && n > 0 {
      assert Prefix(r, c => c != Nul) == 0 && Prefix(s, c => c != Nul) == 0;
    }
  }

  /** lowercase and uppercase are idempotent. */
  lemma CaseIdempotent(s: seq<U8>, n: int)
    ensures Lowercase(Lowercase(s, n), n) == Lowercase(s, n)
    ensures Uppercase(Uppercase(s, n), n) == Uppercase(s, n)
  {
    var lo, up := Lowercase(s, n), Uppercase(s, n);
    ReachKept(s, lo, n);
    ReachKept(s, up, n);
    assert Lowercase(lo, n) == lo by {
      forall i | 0 <= i < |s|
        ensures Lowercase(lo, n)[i] == lo[i]
      {
        CaseInverse(s[i]);
      }
    }
    assert Uppercase(up, n) == up by {
      forall i | 0 <= i < |s|
        ensures Uppercase(up, n)[i] == up[i]
      {
        CaseInverse(s[i]);
      }
    }
  }

  /** The result of strmlcpy: the returned count `n`, the bytes copied to
      `dst`, and the value left in `*l` (`None` when `l` is NULL). */
  datatype Copy = Copy(n: int, dst: seq<U8>, l: Option<int>)

  /**
   * utils.h strmlcpy (portable version): `k` is the given length `*l`, or
   * the string's length when `l` is NULL or `*l` is 0 (and then `*l` is set
   * to it); `n` is `k` for an unlimited capacity `m == 0`, otherwise
   * `min(k, m - 1)`; strlcpy copies at most `n` bytes and terminates.  The
   * source is the string's bytes before its NUL, and `*l` is, as the
   * source's comment asks of callers, the string's length or 0.
   */
  function Strmlcpy(src: seq<U8>, m: nat, l: Option<int>): (c: Copy)
    requires forall i :: 0 <= i < |src| ==> src[i] != Nul
    requires l.None? || l.value >= 0
    ensures c.n >= 0
    ensures m == 0 ==> c.n == (if l.Some? && l.value != 0 then l.value else |src|)
    ensures m > 0 ==> c.n < m
    ensures m > 0 ==> c.n == (var k := if l.Some? && l.value != 0 then l.value else |src|;
                              if k < m then k else m - 1)
    ensures c.dst == src[..if c.n < |src| then c.n else |src|]
    ensures l.Some? ==> c.l == Some(if l.value == 0 then |src| else l.value)
    ensures l.None? ==> c.l.None?
  {
    var k := if l.Some? && l.value != 0 then l.value else |src|;
    var n := if m == 0 then k else if k < m then k else m - 1;
    var lOut := if l.Some? then Some(k) else None;
    var copied := if n < |src| then n else |src|;
    Copy(n, src[..copied], lOut)
  }

  /** What strmlcpy promises when `*l` is the true length or 0: `dst` gets
      the longest prefix of the string that leaves room for the NUL in `m`
      bytes (the whole string for `m == 0`), the return value is the length
      of what was copied, and `*l` ends up holding the string's length. */
  lemma StrmlcpyCopiesPrefix(src: seq<U8>, m: nat, l: Option<int>)
    requires forall i :: 0 <= i < |src| ==> src[i] != Nul
    requires l.None? || l.value == 0 || l.value == |src|
    ensures var c := Strmlcpy(src, m, l);
            c.n == |c.dst| && c.dst == src[..c.n] &&
            (m == 0 || |src| < m ==> c.dst == src) &&
            (m > 0 && |src| >= m ==> |c.dst| == m - 1) &&
            (l.Some? ==> c.l == Some(|src|))
  {
  }

  /** utils.h skip: the index of the first byte that is not white space (a
      NUL ends the scan, being no white space). */
  function Skip(s: seq<U8>): (i: nat)
    ensures i <= |s|
    ensures forall j :: 0 <= j < i ==> IsSpace(s[j])
    ensures i < |s| ==> !IsSpace(s[i])
  {
    Prefix(s, IsSpace)
  }

  /**
   * utils.h bskip as written: from the end `e` it steps back over white
   * space and returns the position after the last byte that is not white
   * space.  It has no lower bound: when every byte before `e` is white
   * space it reads the byte before the string, which the model reports as
   * `None`.
   */
  function BskipAsWritten(s: seq<U8>, e: nat): (r: Option<nat>)
    requires e <= |s|
    ensures r.Some? ==> 0 < r.value <= e && !IsSpace(s[r.value - 1])
    ensures r.None? <==> forall j :: 0 <= j < e ==> IsSpace(s[j])
  {
    if e == 0 then None
    else if IsSpace(s[e - 1]) then BskipAsWritten(s, e - 1)
    else Some(e)
  }

  /** bskip with the lower bound it needs: it stops at the start. */
  function Bskip(s: seq<U8>, e: nat): (r: nat)
    requires e <= |s|
    ensures r <= e
    ensures forall j :: r <= j < e ==> IsSpace(s[j])
    ensures r > 0 ==> !IsSpace(s[r - 1])
  {
    if e == 0 then 0
    else if IsSpace(s[e - 1]) then Bskip(s, e - 1)
    else e
  }

  /** Where bskip as written stays inside the string, it agrees with the
      bounded one. */
  lemma {:induction false} BskipAgrees(s: seq<U8>, e: nat)
    requires e <= |s|
    ensures BskipAsWritten(s, e).Some? ==> BskipAsWritten(s, e).value == Bskip(s, e)
    ensures BskipAsWritten(s, e).None? ==> Bskip(s, e) == 0
  {
    if e > 0 && IsSpace(s[e - 1]) {
      BskipAgrees(s, e - 1);
    }
  }

  /** trim of an empty or all-blank string makes bskip read before it: the
      strings "" and "  " (two spaces). */
  lemma TrimReadsBeforeBlankString()
    ensures BskipAsWritten([], 0).None?
    ensures BskipAsWritten([Space, Space], 2).None?
  {
  }

  /**
   * utils.h trim, with the bounded bskip: the string is cut after its last
   * byte that is not white space, and the result starts at its first byte
   * that is not white space.  The C string is its bytes before the NUL.
   */
  function Trim(s: seq<U8>): (r: seq<U8>)
    requires forall i :: 0 <= i < |s| ==> s[i] != Nul
    ensures exists a, b :: 0 <= a <= b <= |s| && r == s[a..b] &&
              (forall j :: 0 <= j < a ==> IsSpace(s[j])) &&
              (forall j :: b <= j < |s| ==> IsSpace(s[j]))
    ensures |r| > 0 ==> !IsSpace(r[0]) && !IsSpace(r[|r| - 1])
  {
    var b := Bskip(s, |s|);
    var a := Skip(s[..b]);
    assert s[..b][a..] == s[a..b];
    s[a..b]
  }

  /** Trimming twice is trimming once. */
  lemma TrimIdempotent(s: seq<U8>)
    requires forall i :: 0 <= i < |s| ==> s[i] != Nul
    ensures Trim(Trim(s)) == Trim(s)
  {
    var t := Trim(s);
    if |t| > 0 {
      assert Bskip(t, |t|) == |t|;
      assert Skip(t) == 0;
      assert t[..|t|] == t;
    } else {
      assert Bskip(t, 0) == 0;
    }
  }

  /** Whether the bytes so far leave jump inside single or double quotes:
      a quote opens or closes only when no quote of the other kind is
      open. */
  datatype Quotes = Quotes(sq: bool, dq: bool)

  function Step(st: Quotes, c: U8): Quotes {
    if c == '\'' as int && !st.dq then Quotes(!st.sq, st.dq)
    else if c == '"' as int && !st.sq then Quotes(st.sq, !st.dq)
    else st
  }

  /** The quote state after the bytes of `s`, read from the left. */
  function QuotesAfter(s: seq<U8>): (st: Quotes)
    ensures !(st.sq && st.dq)
    decreases |s|
  {
    if |s| == 0 then Quotes(false, false) else Step(QuotesAfter(s[..|s| - 1]), s[|s| - 1])
  }

  predicate Quoted(s: seq<U8>) {
    QuotesAfter(s).sq || QuotesAfter(s).dq
  }

  /** Inside quotes of one kind a quote of the other kind is literal. */
  lemma OtherQuoteLiteral(s: seq<U8>)
    ensures QuotesAfter(s).sq ==> QuotesAfter(s + ['"' as int]) == QuotesAfter(s)
    ensures QuotesAfter(s).dq ==> QuotesAfter(s + ['\'' as int]) == QuotesAfter(s)
  {
    assert (s + ['"' as int])[..|s|] == s;
    assert (s + ['\'' as int])[..|s|] == s;
  }

  /** jump stops at byte `i`: a NUL, or the stop mark outside quotes. */
  predicate Stops(s: seq<U8>, i: nat, stop: U8)
    requires i < |s|
  {
    s[i] == Nul || (s[i] == stop && !Quoted(s[..i]))
  }

  /**
   * utils.h jump: the index of the first `stop` outside single and double
   * quotes, or of the first NUL, or the end of the bytes.
   */
  method Jump(s: seq<U8>, stop: U8) returns (i: nat)
    ensures i <= |s|
    ensures i < |s| ==> Stops(s, i, stop)
    ensures forall j :: 0 <= j < i ==> !Stops(s, j, stop)
  {
    var q, sq, dq := false, false, false;
    i := 0;
    while i < |s| && s[i] != Nul && (s[i] != stop || q)
      invariant i <= |s|
      invariant QuotesAfter(s[..i]) == Quotes(sq, dq) && q == (sq || dq)
      invariant forall j :: 0 <= j < i ==> !Stops(s, j, stop)
    {
      var c := s[i];
      if c == '\'' as int && !dq {
        sq := !sq;
        q := sq;
      } else if c == '"' as int && !sq {
        dq := !dq;
        q := dq;
      }
      assert s[..i + 1][..i] == s[..i];
      i := i + 1;
    }
  }
}
