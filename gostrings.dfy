/** The parts of Go's standard library that the exporter's string handling
    relies on: `strings.Index`, `strings.Split`, `strings.Join`,
    `strings.TrimSpace`, `strconv.Atoi` and the decimal text that `fmt`'s
    `%v` verb writes for a non-negative int. */
module GoStrings {
  import opened Wrappers

  // ---------------------------------------------------------------------
  // strings.Index, strings.Split, strings.Join
  // ---------------------------------------------------------------------

  /** `sep` occurs in `s` starting at index `i`. */
  predicate OccursAt(s: string, sep: string, i: int) {
    0 <= i && i + |sep| <= |s| && MatchAt(s, sep, i)
  }

  /** The characters of `s` from index `i` on are those of `sep`, compared
      one by one as strings.Index compares bytes. */
  predicate MatchAt(s: string, sep: string, i: nat)
    requires i + |sep| <= |s|
    decreases |sep|
  {
    sep == [] || (s[i] == sep[0] && MatchAt(s, sep[1..], i + 1))
  }

  /** The character-wise comparison is slice equality. */
  lemma {:induction false} MatchAtSlice(s: string, sep: string, i: nat)
    requires i + |sep| <= |s|
    ensures MatchAt(s, sep, i) <==> s[i..i + |sep|] == sep
    decreases |sep|
  {
    if sep != [] {
      MatchAtSlice(s, sep[1..], i + 1);
      assert s[i..i + |sep|] == [s[i]] + s[i + 1..i + 1 + |sep[1..]|];
      assert sep == [sep[0]] + sep[1..];
    }
  }

  /** `sep` does not occur anywhere in `s`. */
  predicate SepFree(s: string, sep: string) {
    forall j :: 0 <= j < |s| ==> !OccursAt(s, sep, j)
  }

  /** The first occurrence of `sep` in `s` at or after `from`. */
  function IndexFrom(s: string, sep: string, from: nat): (r: Option<nat>)
    requires sep != ""
    ensures r.Some? ==> from <= r.value && OccursAt(s, sep, r.value)
    decreases |s| - from
  {
    if from + |sep| > |s| then None
    else if MatchAt(s, sep, from) then Some(from)
    else IndexFrom(s, sep, from + 1)
  }

  /** IndexFrom finds the first occurrence: there is none before it, and
      none at all when it finds nothing. */
  lemma {:induction false} IndexFromFirst(s: string, sep: string, from: nat)
    requires sep != ""
    ensures forall j :: from <= j && (IndexFrom(s, sep, from).None? || j < IndexFrom(s, sep, from).value)
              ==> !OccursAt(s, sep, j)
    decreases |s| - from
  {
    if from + |sep| <= |s| && !MatchAt(s, sep, from) {
      IndexFromFirst(s, sep, from + 1);
    }
  }

  /** strings.Index for a non-empty separator: the first occurrence, or None for Go's -1. */
  function Index(s: string, sep: string): (r: Option<nat>)
    requires sep != ""
  {
    IndexFrom(s, sep, 0)
  }

  /** strings.Split for a non-empty separator: cut `s` at every occurrence of
      `sep`, scanning left to right; a string without `sep` (the empty string
      included) becomes a single piece. */
  function Split(s: string, sep: string): (pieces: seq<string>)
    requires sep != ""
    ensures |pieces| >= 1
  {
    SplitFrom(s, sep, 0)
  }

  /** The scan behind Split: look for `sep` from index `from` on, cut at the
      first occurrence and go on with what follows it. */
  function SplitFrom(s: string, sep: string, from: nat): (pieces: seq<string>)
    requires sep != ""
    ensures |pieces| >= 1
    decreases |s|, |s| - from
  {
    if from + |sep| > |s| then [s]
    else if MatchAt(s, sep, from) then [s[..from]] + SplitFrom(s[from + |sep|..], sep, 0)
    else SplitFrom(s, sep, from + 1)
  }

  /** The scan cuts at the occurrence IndexFrom finds. */
  lemma {:induction false} SplitFromIndex(s: string, sep: string, from: nat)
    requires sep != ""
    ensures SplitFrom(s, sep, from) == match IndexFrom(s, sep, from)
                                       case None => [s]
                                       case Some(i) => [s[..i]] + Split(s[i + |sep|..], sep)
    decreases |s| - from
  {
    if from + |sep| <= |s| && !MatchAt(s, sep, from) {
      SplitFromIndex(s, sep, from + 1);
    }
  }

  /** strings.Split cuts at the first occurrence strings.Index reports and
      splits the rest the same way. */
  lemma SplitIndex(s: string, sep: string)
    requires sep != ""
    ensures Split(s, sep) == match Index(s, sep)
                             case None => [s]
                             case Some(i) => [s[..i]] + Split(s[i + |sep|..], sep)
  {
    SplitFromIndex(s, sep, 0);
  }

  /** strings.Join: the pieces with `sep` between neighbours. */
  function Join(pieces: seq<string>, sep: string): string
    requires |pieces| >= 1
  {
    if |pieces| == 1 then pieces[0] else pieces[0] + sep + Join(pieces[1..], sep)
  }

  /** Joining the pieces of a split gives back the original text. */
  lemma {:induction false} JoinSplit(s: string, sep: string)
    requires sep != ""
    ensures Join(Split(s, sep), sep) == s
    decreases |s|
  {
    SplitIndex(s, sep);
    match Index(s, sep)
    case None =>
    case Some(i) =>
      var rest := Split(s[i + |sep|..], sep);
      JoinSplit(s[i + |sep|..], sep);
      assert ([s[..i]] + rest)[1..] == rest;
      assert s[..i] + sep + s[i + |sep|..] == s by {
        MatchAtSlice(s, sep, i);
      }
  }

  /** No piece of a split contains the separator. */
  lemma {:induction false} SplitPiecesSepFree(s: string, sep: string)
    requires sep != ""
    ensures forall k :: 0 <= k < |Split(s, sep)| ==> SepFree(Split(s, sep)[k], sep)
    decreases |s|
  {
    SplitIndex(s, sep);
    IndexFromFirst(s, sep, 0);
    match Index(s, sep)
    case None =>
    case Some(i) =>
      var rest := Split(s[i + |sep|..], sep);
      SplitPiecesSepFree(s[i + |sep|..], sep);
      forall j | 0 <= j < i ensures !OccursAt(s[..i], sep, j) {
        if j + |sep| <= i {
          MatchAtSlice(s[..i], sep, j);
          MatchAtSlice(s, sep, j);
          assert s[..i][j..j + |sep|] == s[j..j + |sep|];
          assert !OccursAt(s, sep, j);
        }
      }
      forall k | 0 <= k < |[s[..i]] + rest| ensures SepFree(([s[..i]] + rest)[k], sep) {
        if k > 0 { assert ([s[..i]] + rest)[k] == rest[k - 1]; }
      }
  }

  /** A separator whose first character appears nowhere else in it (such as
      "&page=") cannot overlap itself. */
  predicate NoSelfOverlap(sep: string) {
    sep != "" && sep[0] !in sep[1..]
  }

  /** A string of digits does not contain a separator that starts with a
      non-digit. */
  lemma DigitsSepFree(t: string, sep: string)
    requires sep != "" && !IsDigit(sep[0]) && AllDigits(t)
    ensures SepFree(t, sep)
  {
    forall j | 0 <= j < |t| ensures !OccursAt(t, sep, j) {
      assert IsDigit(t[j]);
    }
  }

  /** A text without the separator splits into itself alone. */
  lemma SplitSepFree(t: string, sep: string)
    requires sep != "" && SepFree(t, sep)
    ensures Split(t, sep) == [t]
  {
    SplitIndex(t, sep);
  }

  /** A separator that cannot overlap itself does not start again inside
      one of its own occurrences. */
  lemma NoOverlapInside(u: string, sep: string, i: nat, p: nat)
    requires NoSelfOverlap(sep) && OccursAt(u, sep, i) && i < p < i + |sep|
    ensures !OccursAt(u, sep, p)
  {
    MatchAtSlice(u, sep, i);
    assert u[p] == u[i..i + |sep|][p - i];
    assert sep[p - i] == sep[1..][p - i - 1];
  }

  /** An occurrence in a suffix is an occurrence in the whole text, shifted
      by where the suffix starts. */
  lemma OccursShift(u: string, sep: string, k: nat, j: nat)
    requires k <= |u|
    ensures OccursAt(u[k..], sep, j) <==> OccursAt(u, sep, k + j)
  {
    if k + j + |sep| <= |u| {
      MatchAtSlice(u[k..], sep, j);
      MatchAtSlice(u, sep, k + j);
      assert u[k..][j..j + |sep|] == u[k + j..k + j + |sep|];
    }
  }

  /** For such a separator, the last piece of a split is the text after
      an occurrence whenever that text does not contain the separator: the
      last piece is what follows the last occurrence. */
  lemma {:induction false} SplitLastPiece(u: string, sep: string, p: nat)
    requires NoSelfOverlap(sep) && OccursAt(u, sep, p) && SepFree(u[p + |sep|..], sep)
    ensures Split(u, sep)[|Split(u, sep)| - 1] == u[p + |sep|..]
    decreases |u|
  {
    IndexFromFirst(u, sep, 0);
    var i := Index(u, sep).value;
    SplitLastOfRest(u, sep);
    if i == p {
      SplitSepFree(u[p + |sep|..], sep);
    } else {
      if p < i + |sep| {
        NoOverlapInside(u, sep, i, p);
        assert false;
      }
      var q := p - (i + |sep|);
      OccursShift(u, sep, i + |sep|, q);
      assert u[i + |sep|..][q + |sep|..] == u[p + |sep|..];
      SplitLastPiece(u[i + |sep|..], sep, q);
    }
  }

  /** When `sep` occurs, the last piece of the split is the last piece of
      the split of what follows its first occurrence. */
  lemma SplitLastOfRest(u: string, sep: string)
    requires sep != "" && Index(u, sep).Some?
    ensures var rest := Split(u[Index(u, sep).value + |sep|..], sep);
      Split(u, sep)[|Split(u, sep)| - 1] == rest[|rest| - 1]
  {
    SplitIndex(u, sep);
  }

  // ---------------------------------------------------------------------
  // Decimal digits: strconv.Atoi and %v of a non-negative int
  // ---------------------------------------------------------------------

  predicate IsDigit(c: char) {
    '0' <= c <= '9'
  }

  predicate AllDigits(s: string) {
    forall k :: 0 <= k < |s| ==> IsDigit(s[k])
  }

  /** The number a string of decimal digits denotes, read left to right. */
  function DigitsValue(s: string): nat
    requires AllDigits(s)
  {
    if s == "" then 0
    else 10 * DigitsValue(s[..|s| - 1]) + ((s[|s| - 1] as int) - ('0' as int))
  }

  /** The digit character for `d`. */
  function DigitChar(d: nat): (c: char)
    requires d < 10
    ensures IsDigit(c) && (c as int) - ('0' as int) == d
  {
    ('0' as int + d) as char
  }

  /** The decimal text of `n` as fmt's %v writes it: no sign, no leading zero. */
  function NatToString(n: nat): (s: string)
    ensures s != "" && AllDigits(s)
    ensures |s| > 1 ==> s[0] != '0'
  {
    if n < 10 then [DigitChar(n)] else NatToString(n / 10) + [DigitChar(n % 10)]
  }

  /** strconv.Atoi for the inputs modelled here: an optional '+' or '-'
      followed by at least one decimal digit; anything else is a syntax error
      (None). Go's range check on very long inputs is not modelled. */
  function Atoi(s: string): (r: Option<int>)
  {
    if s == "" then None
    else
      var digits := if s[0] == '+' || s[0] == '-' then s[1..] else s;
      if digits == "" || !AllDigits(digits) then None
      else if s[0] == '-' then Some(-(DigitsValue(digits) as int))
      else Some(DigitsValue(digits))
  }

  /** Reading back the decimal text of a number gives the number. */
  lemma {:induction false} DigitsValueOfNatToString(n: nat)
    ensures DigitsValue(NatToString(n)) == n
    decreases n
  {
    if n >= 10 {
      var p := NatToString(n / 10);
      var s := p + [DigitChar(n % 10)];
      DigitsValueOfNatToString(n / 10);
      assert s[..|s| - 1] == p;
    }
  }

  /** strconv.Atoi inverts %v on non-negative ints, and an explicit sign is honoured. */
  lemma AtoiNatToString(n: nat)
    ensures Atoi(NatToString(n)) == Some(n)
    ensures Atoi("-" + NatToString(n)) == Some(-(n as int))
    ensures Atoi("+" + NatToString(n)) == Some(n)
  {
    DigitsValueOfNatToString(n);
    var d := NatToString(n);
    assert !IsDigit('+') && !IsDigit('-');
    assert d[0] != '+' && d[0] != '-';
    assert ("-" + d)[1..] == d;
    assert ("+" + d)[1..] == d;
  }

  // ---------------------------------------------------------------------
  // strings.TrimSpace
  // ---------------------------------------------------------------------

  /** unicode.IsSpace: the ASCII spaces, U+0085, U+00A0 and the other code
      points with the Unicode White_Space property. */
  predicate IsSpace(c: char) {
    c == ' ' || c == '\t' || c == '\n' || c == '\r' || c == '\U{000B}' || c == '\U{000C}'
    || c == '\U{0085}' || c == '\U{00A0}' || c == '\U{1680}'
    || ('\U{2000}' <= c <= '\U{200A}')
    || c == '\U{2028}' || c == '\U{2029}' || c == '\U{202F}' || c == '\U{205F}' || c == '\U{3000}'
  }

  /** The length of the leading white space of `s`. */
  function LeadingSpace(s: string): (n: nat)
    ensures n <= |s|
    ensures forall k :: 0 <= k < n ==> IsSpace(s[k])
    ensures n == |s| || !IsSpace(s[n])
  {
    if s != "" && IsSpace(s[0]) then 1 + LeadingSpace(s[1..]) else 0
  }

  /** Where the trailing white space of `s` begins. */
  function TrailingSpace(s: string): (e: nat)
    ensures e <= |s|
    ensures forall k :: e <= k < |s| ==> IsSpace(s[k])
    ensures e == 0 || !IsSpace(s[e - 1])
  {
    if s != "" && IsSpace(s[|s| - 1]) then TrailingSpace(s[..|s| - 1]) else |s|
  }

  /** strings.TrimSpace: what remains once the white space at both ends is
      cut off; it neither starts nor ends with white space. */
  function TrimSpace(s: string): (r: string)
    ensures r == "" || (!IsSpace(r[0]) && !IsSpace(r[|r| - 1]))
  {
    var i := LeadingSpace(s);
    s[i..i + TrailingSpace(s[i..])]
  }

  /** Everything TrimSpace cuts off, before and after the slice it keeps,
      is white space. */
  lemma TrimSpaceCutsSpace(s: string)
    ensures forall k :: 0 <= k < LeadingSpace(s) ==> IsSpace(s[k])
    ensures forall k :: LeadingSpace(s) + |TrimSpace(s)| <= k < |s| ==> IsSpace(s[k])
  {
    var i := LeadingSpace(s);
    var rest := s[i..];
    forall k | i + TrailingSpace(rest) <= k < |s| ensures IsSpace(s[k]) {
      assert s[k] == rest[k - i];
    }
  }

  /** Trimming twice is trimming once. */
  lemma TrimSpaceIdempotent(s: string)
    ensures TrimSpace(TrimSpace(s)) == TrimSpace(s)
  {
    var t := TrimSpace(s);
    assert LeadingSpace(t) == 0;
    assert t[0..] == t;
    assert TrailingSpace(t) == |t|;
  }
}
