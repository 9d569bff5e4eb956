/**
 * The regular expressions of web/collector.js (lines 3-8) and of the address
 * field in web/index.js (lines 8-9), written out as hand-made matchers that
 * follow JavaScript's leftmost, backtracking semantics for these patterns.
 */
module Patterns {
  import opened Wrappers
  import opened Strings

  const CONNECTED_HEADER: string := "Connected"
  const INVALID_SYNTAX: string := "Invalid syntax."
  const FIREWALL_RATE_LABEL: string := "Log incoming rate:"
  const PANORAMA_RATE_LABEL: string := "Incoming log rate"
  const SHELL_PROMPT: string := "> "
  const LOCALHOST: string := "localhost"

  /** REGEX_SHELL_PROMPT: without the multiline flag `$` only matches at the end of the chunk. */
  predicate IsShellPrompt(chunk: string) {
    EndsWith(chunk, SHELL_PROMPT)
  }

  /** A chunk is a prompt exactly when its last two characters are ">" and a space. */
  lemma ShellPromptIff(chunk: string)
    ensures IsShellPrompt(chunk) <==> |chunk| >= 2 && chunk[|chunk| - 2] == '>' && chunk[|chunk| - 1] == ' '
  {
    if |chunk| >= 2 {
      assert chunk[|chunk| - 2..] == [chunk[|chunk| - 2], chunk[|chunk| - 1]];
    }
  }

  datatype Pattern =
    | Literal(text: string)  // REGEX_CONNECTED_DEVICES_HEADER and REGEX_INVALID_SYNTAX
    | FirewallRate           // REGEX_FIREWALL_RATE: "Log incoming rate:", `\s*`, group `[0-9]+`
    | PanoramaRate           // REGEX_PANORAMA_RATE: "Incoming log rate", `\s*=\s*`, group `[0-9]+(\.[0-9]+)?`
    | Address                // REGEX_IPV4_ADDRESS: "localhost" or a dotted quad, no word boundaries

  /**
   * One match: the matched span `start..end` and `group`, the element `exec`
   * returns at index 1 for the two rate patterns and at index 0 otherwise.
   */
  datatype Match = Match(start: nat, end: nat, group: string)

  /** Every character of `s[a..b]` is whitespace. */
  predicate SpacesBetween(s: string, a: int, b: int) {
    0 <= a <= b <= |s| && forall k :: a <= k < b ==> IsSpace(s[k])
  }

  lemma DigitIsNotSpace(c: char)
    requires IsDigit(c)
    ensures !IsSpace(c)
  {
  }

  /** End of the run of `\s` characters that starts at `i`. */
  function SpacesEnd(s: string, i: nat): (j: nat)
    requires i <= |s|
    ensures i <= j <= |s|
    ensures forall k :: i <= k < j ==> IsSpace(s[k])
    ensures j < |s| ==> !IsSpace(s[j])
    decreases |s| - i
  {
    if i < |s| && IsSpace(s[i]) then SpacesEnd(s, i + 1) else i
  }

  /** A whitespace run followed by a non-space character ends there. */
  lemma SpacesEndAt(s: string, a: nat, j: nat)
    requires SpacesBetween(s, a, j) && (j == |s| || !IsSpace(s[j]))
    ensures SpacesEnd(s, a) == j
  {
  }

  /** Start of the run of `\s` characters that ends at `hi`, not going below `lo`. */
  function SpacesStart(s: string, lo: nat, hi: nat): (j: nat)
    requires lo <= hi <= |s|
    ensures lo <= j <= hi
    ensures forall k :: j <= k < hi ==> IsSpace(s[k])
    ensures lo < j ==> !IsSpace(s[j - 1])
    decreases hi - lo
  {
    if lo < hi && IsSpace(s[hi - 1]) then SpacesStart(s, lo, hi - 1) else hi
  }

  /** End of the run of `[0-9]` characters that starts at `i` (a greedy `[0-9]*`). */
  function DigitsEnd(s: string, i: nat): (j: nat)
    requires i <= |s|
    ensures i <= j <= |s|
    ensures AllDigits(s[i..j])
    ensures j < |s| ==> !IsDigit(s[j])
    decreases |s| - i
  {
    if i < |s| && IsDigit(s[i]) then
      var j := DigitsEnd(s, i + 1);
      assert s[i..j] == [s[i]] + s[i + 1..j];
      j
    else i
  }

  /** One octet, the alternation `25[0-5]|2[0-4][0-9]|[01]?[0-9][0-9]?` matching all of `t`. */
  predicate IsOctet(t: string) {
    (|t| == 3 && t[0] == '2' && t[1] == '5' && '0' <= t[2] <= '5')
    || (|t| == 3 && t[0] == '2' && '0' <= t[1] <= '4' && IsDigit(t[2]))
    || (|t| == 3 && (t[0] == '0' || t[0] == '1') && IsDigit(t[1]) && IsDigit(t[2]))
    || (1 <= |t| <= 2 && AllDigits(t))
  }

  function DigitValue(c: char): int {
    c as int - '0' as int
  }

  /** The decimal number a digit string denotes. */
  function Value(t: string): int {
    if t == [] then 0 else 10 * Value(t[..|t| - 1]) + DigitValue(t[|t| - 1])
  }

  /** The octet alternation accepts exactly the strings of one to three digits that denote at most 255. */
  lemma OctetIsByte(t: string)
    ensures IsOctet(t) <==> 1 <= |t| <= 3 && AllDigits(t) && Value(t) <= 255
  {
    if 1 <= |t| <= 3 && AllDigits(t) {
      assert t[..1][..0] == [];
      assert Value(t[..1]) == DigitValue(t[0]);
      if |t| >= 2 {
        assert t[..2][..1] == t[..1];
        assert Value(t[..2]) == 10 * DigitValue(t[0]) + DigitValue(t[1]);
      }
      if |t| == 3 {
        assert t[..3] == t;
        assert Value(t) == 100 * DigitValue(t[0]) + 10 * DigitValue(t[1]) + DigitValue(t[2]);
      } else if |t| == 2 {
        assert t[..2] == t;
      } else {
        assert t[..1] == t;
      }
    }
  }

  lemma OctetHasNoDot(t: string)
    requires IsOctet(t)
    ensures '.' !in t
  {
  }

  /**
   * An octet followed by `\.`: since the dot is not a digit, the octet has to
   * cover the whole run of digits at `i`. The result is the index after the dot.
   */
  function InnerOctetEnd(s: string, i: nat): (r: Option<nat>)
    requires i <= |s|
    ensures r.Some? ==> i < r.value <= |s| && IsOctet(s[i..r.value - 1]) && s[r.value - 1] == '.'
  {
    var k := DigitsEnd(s, i);
    if IsOctet(s[i..k]) && k < |s| && s[k] == '.' then Some(k + 1) else None
  }

  /** Conversely, an octet followed by a dot at `i` is found. */
  lemma InnerOctetComplete(s: string, i: nat, e: nat)
    requires i < e < |s| && s[e] == '.' && IsOctet(s[i..e])
    ensures InnerOctetEnd(s, i) == Some(e + 1)
  {
    var k := DigitsEnd(s, i);
    OctetIsByte(s[i..e]);
    assert forall m :: i <= m < e ==> IsDigit(s[m]) by {
      forall m | i <= m < e ensures IsDigit(s[m]) { assert s[m] == s[i..e][m - i]; }
    }
    assert forall m :: i <= m < k ==> IsDigit(s[m]) by {
      forall m | i <= m < k ensures IsDigit(s[m]) { assert s[m] == s[i..k][m - i]; }
    }
  }

  /**
   * The final octet, which nothing follows: the alternatives are tried in
   * order (`25[0-5]`, then `2[0-4][0-9]`, then the greedy `[01]?[0-9][0-9]?`),
   * and the first that matches is the longest prefix of the digits at `i`
   * that is an octet.
   */
  function LastOctetEnd(s: string, i: nat): (r: Option<nat>)
    requires i <= |s|
    ensures r.Some? ==> i < r.value <= |s| && IsOctet(s[i..r.value])
    ensures r.None? <==> i == |s| || !IsDigit(s[i])
  {
    var k := DigitsEnd(s, i);
    if k == i then None
    else
      var n := if k - i > 3 then i + 3 else k;
      DigitsPrefix(s, i, k, n);
      if IsOctet(s[i..n]) then Some(n)
      else
        assert n == i + 3;
        assert s[i..n - 1] == s[i..n][..2];
        Some(n - 1)
  }

  lemma DigitsPrefix(s: string, i: nat, k: nat, n: nat)
    requires i <= n <= k <= |s| && AllDigits(s[i..k])
    ensures AllDigits(s[i..n])
  {
    forall m | 0 <= m < n - i ensures IsDigit(s[i..n][m]) {
      assert s[i..n][m] == s[i..k][m];
    }
  }

  /** The final octet is the longest octet that starts at `i`. */
  lemma LastOctetLongest(s: string, i: nat, e: nat)
    requires i <= |s| && LastOctetEnd(s, i).Some?
    requires LastOctetEnd(s, i).value < e <= |s|
    ensures !IsOctet(s[i..e])
  {
    var k := DigitsEnd(s, i);
    if e > k {
      assert s[i..e][k - i] == s[k];
    }
  }

  /** REGEX_IPV4_ADDRESS tried at exactly index `i`. */
  function AddressAt(s: string, i: nat): (r: Option<Match>)
    requires i <= |s|
    ensures r.Some? ==> r.value.start == i < r.value.end <= |s| && r.value.group == s[i..r.value.end]
  {
    if StartsAt(s, i, LOCALHOST) then Some(Match(i, i + |LOCALHOST|, LOCALHOST))
    else
      match QuadEnd(s, i)
      case None => None
      case Some(e) => Some(Match(i, e, s[i..e]))
  }

  /** The dotted-quad alternative at `i`: three octets each followed by a dot, then the final octet. */
  function QuadEnd(s: string, i: nat): (r: Option<nat>)
    requires i <= |s|
    ensures r.Some? ==> i < r.value <= |s| && IsDottedQuad(s[i..r.value])
  {
    match InnerOctetEnd(s, i)
    case None => None
    case Some(e1) =>
      match InnerOctetEnd(s, e1)
      case None => None
      case Some(e2) =>
        match InnerOctetEnd(s, e2)
        case None => None
        case Some(e3) =>
          match LastOctetEnd(s, e3)
          case None => None
          case Some(e4) =>
            QuadFromSlices(s, i, e1, e2, e3, e4);
            Some(e4)
  }

  /** REGEX_FIREWALL_RATE tried at exactly index `i`; `\s*` is greedy and a digit is not a space. */
  function FirewallRateAt(s: string, i: nat): (r: Option<Match>)
    requires i <= |s|
    ensures r.Some? ==> r.value.group != [] && AllDigits(r.value.group)
  {
    if !StartsAt(s, i, FIREWALL_RATE_LABEL) then None
    else
      var j := SpacesEnd(s, i + |FIREWALL_RATE_LABEL|);
      var k := DigitsEnd(s, j);
      if j < k then Some(Match(i, k, s[j..k])) else None
  }

  /** Where a firewall rate match lies: the label, only whitespace, then the whole run of digits. */
  lemma FirewallRateAtSpan(s: string, i: nat)
    requires i <= |s| && FirewallRateAt(s, i).Some?
    ensures var m := FirewallRateAt(s, i).value; var j := m.end - |m.group|;
      && m.start == i && m.end <= |s|
      && StartsAt(s, i, FIREWALL_RATE_LABEL)
      && SpacesBetween(s, i + |FIREWALL_RATE_LABEL|, j)
      && m.group == s[j..m.end]
      && (m.end == |s| || !IsDigit(s[m.end]))
  {
  }

  /** The firewall rate matches at `i` exactly when the label there is followed by whitespace and a digit. */
  lemma FirewallRateAtIff(s: string, i: nat)
    requires i <= |s|
    ensures FirewallRateAt(s, i).Some? <==>
      && StartsAt(s, i, FIREWALL_RATE_LABEL)
      && exists j :: SpacesBetween(s, i + |FIREWALL_RATE_LABEL|, j) && j < |s| && IsDigit(s[j])
  {
    var a := i + |FIREWALL_RATE_LABEL|;
    if StartsAt(s, i, FIREWALL_RATE_LABEL) {
      if exists j :: SpacesBetween(s, a, j) && j < |s| && IsDigit(s[j]) {
        var j :| SpacesBetween(s, a, j) && j < |s| && IsDigit(s[j]);
        DigitIsNotSpace(s[j]);
        SpacesEndAt(s, a, j);
      }
      if FirewallRateAt(s, i).Some? {
        var j := SpacesEnd(s, a);
        var k := DigitsEnd(s, j);
        assert s[j] == s[j..k][0];
      }
    }
  }

  /** REGEX_PANORAMA_RATE tried at exactly index `i`. */
  function PanoramaRateAt(s: string, i: nat): (r: Option<Match>)
    requires i <= |s|
    ensures r.Some? ==> IsDecimal(r.value.group)
  {
    if !StartsAt(s, i, PANORAMA_RATE_LABEL) then None
    else
      var j := SpacesEnd(s, i + |PANORAMA_RATE_LABEL|);
      if !(j < |s| && s[j] == '=') then None
      else
        var d := SpacesEnd(s, j + 1);
        if d < |s| && IsDigit(s[d]) then
          var e := DecimalEnd(s, d);
          Some(Match(i, e, s[d..e]))
        else None
  }

  /**
   * Where a log-collector rate match lies: the label, whitespace, "=",
   * whitespace, then the number up to a non-digit, with the fraction taken
   * whenever a dot and a digit follow the integer part.
   */
  lemma PanoramaRateAtSpan(s: string, i: nat)
    requires i <= |s| && PanoramaRateAt(s, i).Some?
    ensures var m := PanoramaRateAt(s, i).value; var d := m.end - |m.group|;
      && m.start == i && i + |PANORAMA_RATE_LABEL| <= d <= m.end <= |s|
      && PanoramaPrefix(s, i, d)
      && m.group == s[d..m.end]
      && (m.end == |s| || !IsDigit(s[m.end]))
      && ('.' !in m.group ==> !(m.end + 1 < |s| && s[m.end] == '.' && IsDigit(s[m.end + 1])))
  {
    var j := SpacesEnd(s, i + |PANORAMA_RATE_LABEL|);
    var d := SpacesEnd(s, j + 1);
    PrefixWitness(s, i, j, d);
  }

  /**
   * The end of `[0-9]+(\.[0-9]+)?` at `d`: the digits, then the fraction
   * when a dot and a digit follow them.
   */
  function DecimalEnd(s: string, d: nat): (e: nat)
    requires d < |s| && IsDigit(s[d])
    ensures d < e <= |s| && IsDecimal(s[d..e])
    ensures e == |s| || !IsDigit(s[e])
    ensures '.' !in s[d..e] ==> !(e + 1 < |s| && s[e] == '.' && IsDigit(s[e + 1]))
  {
    var k := DigitsEnd(s, d);
    if k + 1 < |s| && s[k] == '.' && IsDigit(s[k + 1]) then
      var f := DigitsEnd(s, k + 1);
      DecimalSlice(s, d, k, f);
      assert s[d..f][k - d] == '.';
      f
    else
      DigitsHaveNoDot(s[d..k]);
      k
  }

  lemma DigitsHaveNoDot(t: string)
    requires AllDigits(t)
    ensures '.' !in t
  {
  }

  /** The label at `i`, whitespace, "=" and whitespace, up to index `d`. */
  ghost predicate PanoramaPrefix(s: string, i: nat, d: nat) {
    && StartsAt(s, i, PANORAMA_RATE_LABEL)
    && exists j :: SpacesBetween(s, i + |PANORAMA_RATE_LABEL|, j) && j < |s| && s[j] == '=' && SpacesBetween(s, j + 1, d)
  }

  lemma PrefixWitness(s: string, i: nat, j: nat, d: nat)
    requires StartsAt(s, i, PANORAMA_RATE_LABEL) && j < |s| && s[j] == '='
    requires SpacesBetween(s, i + |PANORAMA_RATE_LABEL|, j) && SpacesBetween(s, j + 1, d)
    ensures PanoramaPrefix(s, i, d)
  {
  }

  /** The log-collector rate matches at `i` exactly when the label's prefix there is followed by a digit. */
  lemma PanoramaRateAtIff(s: string, i: nat)
    requires i <= |s|
    ensures PanoramaRateAt(s, i).Some? <==> exists d: nat :: PanoramaPrefix(s, i, d) && d < |s| && IsDigit(s[d])
  {
    if exists d: nat :: PanoramaPrefix(s, i, d) && d < |s| && IsDigit(s[d]) {
      var d: nat :| PanoramaPrefix(s, i, d) && d < |s| && IsDigit(s[d]);
      PanoramaRateFound(s, i, d);
    }
    if PanoramaRateAt(s, i).Some? {
      PanoramaRateDigit(s, i);
    }
  }

  lemma PanoramaRateDigit(s: string, i: nat)
    requires i <= |s| && PanoramaRateAt(s, i).Some?
    ensures exists d: nat :: PanoramaPrefix(s, i, d) && d < |s| && IsDigit(s[d])
  {
    var j := SpacesEnd(s, i + |PANORAMA_RATE_LABEL|);
    var d := SpacesEnd(s, j + 1);
    PrefixWitness(s, i, j, d);
  }

  lemma PanoramaRateFound(s: string, i: nat, d: nat)
    requires PanoramaPrefix(s, i, d) && d < |s| && IsDigit(s[d])
    ensures PanoramaRateAt(s, i).Some?
  {
    var j :| SpacesBetween(s, i + |PANORAMA_RATE_LABEL|, j) && j < |s| && s[j] == '=' && SpacesBetween(s, j + 1, d);
    SpacesEndAt(s, i + |PANORAMA_RATE_LABEL|, j);
    DigitIsNotSpace(s[d]);
    SpacesEndAt(s, j + 1, d);
  }

  /** The pattern tried at exactly index `i`. */
  function MatchAt(p: Pattern, s: string, i: nat): (r: Option<Match>)
    requires i <= |s|
    ensures r.Some? ==> r.value.start == i <= r.value.end <= |s|
    ensures p.Address? && r.Some? ==> i < r.value.end && r.value.group == s[i..r.value.end]
  {
    match p
    case Literal(t) => if StartsAt(s, i, t) then Some(Match(i, i + |t|, t)) else None
    case FirewallRate => FirewallRateAt(s, i)
    case PanoramaRate => PanoramaRateAt(s, i)
    case Address => AddressAt(s, i)
  }

  /**
   * `exec` with the scan cursor at `from`: the match at the leftmost index at
   * or after `from` where the pattern matches, if there is one.
   */
  function Exec(p: Pattern, s: string, from: nat): (m: Option<Match>)
    ensures m.Some? ==> from <= m.value.start <= |s| && MatchAt(p, s, m.value.start) == m
    ensures forall j :: from <= j <= |s| && (m.None? || j < m.value.start) ==> MatchAt(p, s, j).None?
    decreases |s| - from
  {
    if from > |s| then None
    else if MatchAt(p, s, from).Some? then MatchAt(p, s, from)
    else if from == |s| then None
    else Exec(p, s, from + 1)
  }

  /** `test`: the pattern matches somewhere in `s`. */
  predicate Test(p: Pattern, s: string) {
    Exec(p, s, 0).Some?
  }

  /** `test` succeeds exactly when the pattern matches at some index of `s`. */
  lemma TestIff(p: Pattern, s: string)
    ensures Test(p, s) <==> exists j :: 0 <= j <= |s| && MatchAt(p, s, j).Some?
  {
    if Test(p, s) {
      assert MatchAt(p, s, Exec(p, s, 0).value.start).Some?;
    }
  }

  /** A literal pattern matches exactly when the literal occurs in `s`. */
  lemma ContainsIff(s: string, lit: string)
    ensures Test(Literal(lit), s) <==> exists i :: 0 <= i <= |s| && StartsAt(s, i, lit)
  {
    if exists i :: 0 <= i <= |s| && StartsAt(s, i, lit) {
      var i :| 0 <= i <= |s| && StartsAt(s, i, lit);
      assert MatchAt(Literal(lit), s, i).Some?;
    }
  }

  /** Group 1 of the first match of a rate pattern (`regex.exec(data)[1]`). */
  function Rate(p: Pattern, s: string): (r: Option<string>)
    ensures r.Some? <==> Test(p, s)
  {
    match Exec(p, s, 0)
    case Some(m) => Some(m.group)
    case None => None
  }

  /**
   * A captured rate is group 1 of the leftmost match: when the pattern first
   * matches at `i`, the rate is that match's group.
   */
  lemma RateLeftmost(p: Pattern, s: string, i: nat)
    requires i <= |s| && MatchAt(p, s, i).Some?
    requires forall j :: 0 <= j < i ==> MatchAt(p, s, j).None?
    ensures Rate(p, s) == Some(MatchAt(p, s, i).value.group)
  {
    var m := Exec(p, s, 0);
    assert m.Some?;
    assert m.value.start == i;
  }

  /** A decimal rate: digits, optionally a dot and more digits. */
  predicate IsDecimal(t: string) {
    (t != [] && AllDigits(t))
    || exists k :: 0 < k < |t| - 1 && t[k] == '.' && AllDigits(t[..k]) && AllDigits(t[k + 1..])
  }

  /** What a rate captured by `p` looks like. */
  predicate IsRateText(p: Pattern, t: string) {
    match p
    case FirewallRate => t != [] && AllDigits(t)
    case PanoramaRate => IsDecimal(t)
    case _ => true
  }

  lemma DecimalSlice(s: string, d: nat, k: nat, f: nat)
    requires d < k < k + 1 < f <= |s| && s[k] == '.'
    requires AllDigits(s[d..k]) && AllDigits(s[k + 1..f])
    ensures IsDecimal(s[d..f])
  {
    var t := s[d..f];
    assert t[..k - d] == s[d..k];
    assert t[k - d + 1..] == s[k + 1..f];
    assert t[k - d] == '.';
  }

  /** A firewall rate is a non-empty digit string, a log-collector rate a decimal. */
  lemma RateShape(p: Pattern, s: string)
    requires p == FirewallRate || p == PanoramaRate
    requires Rate(p, s).Some?
    ensures IsRateText(p, Rate(p, s).value)
  {
    var m := Exec(p, s, 0).value;
    assert MatchAt(p, s, m.start) == Some(m);
  }

  /** REGEX_IPV4_ADDRESS's shape: "localhost" or four dot-separated octets. */
  predicate IsHostToken(t: string) {
    t == LOCALHOST || IsDottedQuad(t)
  }

  predicate IsDottedQuad(t: string) {
    var parts := Split(t, '.');
    |parts| == 4 && forall k :: 0 <= k < 4 ==> IsOctet(parts[k])
  }

  /** Four octets joined by dots split back into those octets. */
  lemma QuadSplit(o1: string, o2: string, o3: string, o4: string)
    requires IsOctet(o1) && IsOctet(o2) && IsOctet(o3) && IsOctet(o4)
    ensures IsDottedQuad(o1 + ['.'] + (o2 + ['.'] + (o3 + ['.'] + o4)))
  {
    OctetHasNoDot(o1); OctetHasNoDot(o2); OctetHasNoDot(o3); OctetHasNoDot(o4);
    var t3 := o3 + ['.'] + o4;
    var t2 := o2 + ['.'] + t3;
    SplitNoSeparator(o4, '.');
    SplitAfterPiece(o3, '.', o4);
    assert Split(t3, '.') == [o3, o4];
    SplitAfterPiece(o2, '.', t3);
    assert Split(t2, '.') == [o2, o3, o4];
    SplitAfterPiece(o1, '.', t2);
    assert Split(o1 + ['.'] + t2, '.') == [o1, o2, o3, o4];
  }

  /** A dotted quad is made of digits and dots only, and is not empty. */
  lemma QuadChars(t: string)
    requires IsDottedQuad(t)
    ensures t != []
    ensures forall c :: c in t ==> IsDigit(c) || c == '.'
  {
    var parts := Split(t, '.');
    JoinSplit(t, '.');
    forall c | !IsDigit(c) && c != '.' ensures c !in t {
      forall k | 0 <= k < |parts| ensures c !in parts[k] {
        OctetIsByte(parts[k]);
      }
      JoinAvoids(parts, ".", c);
    }
  }

  /** A host token holds no whitespace. */
  lemma HostTokenHasNoSpace(t: string)
    requires IsHostToken(t)
    ensures forall c :: IsSpace(c) ==> c !in t
  {
    if t != LOCALHOST {
      QuadChars(t);
    }
  }

  /** A host token is not empty and has no comma. */
  lemma HostTokenHasNoComma(t: string)
    requires IsHostToken(t)
    ensures t != [] && ',' !in t
  {
    if t != LOCALHOST {
      QuadChars(t);
    }
  }

  /** Every address match is a host token. */
  lemma AddressAtIsHost(s: string, i: nat)
    requires i <= |s| && AddressAt(s, i).Some?
    ensures IsHostToken(AddressAt(s, i).value.group)
  {
  }

  /** Three octet-and-dot spans and a final octet make a dotted quad. */
  lemma QuadFromSlices(s: string, i: nat, e1: nat, e2: nat, e3: nat, e4: nat)
    requires i < e1 <= e2 - 1 && e2 <= e3 - 1 && e3 <= e4 <= |s|
    requires s[e1 - 1] == '.' && s[e2 - 1] == '.' && s[e3 - 1] == '.'
    requires IsOctet(s[i..e1 - 1]) && IsOctet(s[e1..e2 - 1]) && IsOctet(s[e2..e3 - 1]) && IsOctet(s[e3..e4])
    ensures IsDottedQuad(s[i..e4])
  {
    DotSlice(s, i, e1, e4);
    DotSlice(s, e1, e2, e4);
    DotSlice(s, e2, e3, e4);
    QuadSplit(s[i..e1 - 1], s[e1..e2 - 1], s[e2..e3 - 1], s[e3..e4]);
  }

  lemma DotSlice(s: string, a: nat, b: nat, c: nat)
    requires a < b <= c <= |s| && s[b - 1] == '.'
    ensures s[a..c] == s[a..b - 1] + ['.'] + s[b..c]
  {
  }

  /** A dotted quad is its four pieces joined by dots. */
  lemma QuadParts(t: string)
    requires IsDottedQuad(t)
    ensures var p := Split(t, '.');
      t == p[0] + ['.'] + (p[1] + ['.'] + (p[2] + ['.'] + p[3]))
  {
    var p := Split(t, '.');
    JoinSplit(t, '.');
    assert Join(p[3..], ['.']) == p[3];
    assert Join(p[2..], ['.']) == p[2] + ['.'] + p[3];
    assert Join(p[1..], ['.']) == p[1] + ['.'] + (p[2] + ['.'] + p[3]);
  }

  /**
   * Conversely, "localhost" or a dotted quad at `i` is matched there, and
   * the match reaches at least to the end of the quad (the last octet may
   * take further digits).
   */
  lemma AddressAtComplete(s: string, i: nat, e: nat)
    requires i <= |s|
    requires StartsAt(s, i, LOCALHOST) || (i < e <= |s| && IsDottedQuad(s[i..e]))
    ensures AddressAt(s, i).Some?
    ensures i < e <= |s| && IsDottedQuad(s[i..e]) ==> e <= AddressAt(s, i).value.end
  {
    if i < e <= |s| && IsDottedQuad(s[i..e]) {
      var p := Split(s[i..e], '.');
      QuadParts(s[i..e]);
      assert IsOctet(p[0]) && IsOctet(p[1]) && IsOctet(p[2]) && IsOctet(p[3]);
      QuadMatched(s, i, e, p[0], p[1], p[2], p[3]);
    }
  }

  lemma QuadMatched(s: string, i: nat, e: nat, o1: string, o2: string, o3: string, o4: string)
    requires i < e <= |s| && s[i..e] == o1 + ['.'] + (o2 + ['.'] + (o3 + ['.'] + o4))
    requires IsOctet(o1) && IsOctet(o2) && IsOctet(o3) && IsOctet(o4)
    ensures AddressAt(s, i).Some? && e <= AddressAt(s, i).value.end
  {
    OctetThenDot(s, i, e, o1, o2 + ['.'] + (o3 + ['.'] + o4));
    QuadTailMatched(s, i, i + |o1| + 1, e, o2, o3, o4);
  }

  /** The second to fourth octets of a quad whose first octet and dot end at `e1`. */
  lemma QuadTailMatched(s: string, i: nat, e1: nat, e: nat, o2: string, o3: string, o4: string)
    requires i < e1 <= e <= |s| && InnerOctetEnd(s, i) == Some(e1)
    requires s[e1..e] == o2 + ['.'] + (o3 + ['.'] + o4)
    requires IsOctet(o2) && IsOctet(o3) && IsOctet(o4)
    ensures AddressAt(s, i).Some? && e <= AddressAt(s, i).value.end
  {
    OctetThenDot(s, e1, e, o2, o3 + ['.'] + o4);
    var e2 := e1 + |o2| + 1;
    OctetThenDot(s, e2, e, o3, o4);
    QuadMatchedAt(s, i, e, e1, e2, e2 + |o3| + 1, o4);
  }

  lemma QuadMatchedAt(s: string, i: nat, e: nat, e1: nat, e2: nat, e3: nat, o4: string)
    requires i < e <= |s|
    requires InnerOctetEnd(s, i) == Some(e1) && InnerOctetEnd(s, e1) == Some(e2) && InnerOctetEnd(s, e2) == Some(e3)
    requires e3 <= e && s[e3..e] == o4 && IsOctet(o4)
    ensures AddressAt(s, i).Some? && e <= AddressAt(s, i).value.end
  {
    OctetNotLocalhost(s, i, e1 - 1);
    OctetIsByte(o4);
    assert s[e3] == o4[0];
    var last := LastOctetEnd(s, e3);
    if last.value < e {
      LastOctetLongest(s, e3, e);
    }
  }

  /** An octet at `i` rules out "localhost" there: it begins with a digit. */
  lemma OctetNotLocalhost(s: string, i: nat, k: nat)
    requires i <= k <= |s| && IsOctet(s[i..k])
    ensures !StartsAt(s, i, LOCALHOST)
  {
    OctetIsByte(s[i..k]);
    assert s[i] == s[i..k][0];
    if i + |LOCALHOST| <= |s| {
      assert s[i..i + |LOCALHOST|][0] == s[i];
    }
  }

  /** An octet and a dot at the head of `s[i..e]` are consumed by the inner-octet matcher. */
  lemma OctetThenDot(s: string, i: nat, e: nat, o: string, rest: string)
    requires i <= e <= |s| && s[i..e] == o + ['.'] + rest && IsOctet(o)
    ensures i + |o| + 1 <= e && InnerOctetEnd(s, i) == Some(i + |o| + 1) && s[i + |o| + 1..e] == rest
  {
    var next: nat := i + |o| + 1;
    assert |s[i..e]| == |o| + 1 + |rest|;
    assert s[i..next - 1] == s[i..e][..|o|] == o;
    assert s[next - 1] == s[i..e][|o|] == '.';
    InnerOctetComplete(s, i, next - 1);
    assert s[next..e] == s[i..e][|o| + 1..];
  }

  /** An address that occurs in `s` makes the address pattern's `test` succeed. */
  lemma HostOccurs(s: string, i: nat, t: string)
    requires StartsAt(s, i, t) && IsHostToken(t)
    ensures Test(Address, s)
  {
    var e := i + |t|;
    assert s[i..e] == t;
    AddressAtComplete(s, i, e);
    assert MatchAt(Address, s, i).Some?;
    TestIff(Address, s);
  }

  /** The addresses found from cursor `from` on: each `exec` continues at the end of the previous match. */
  function AddressesFrom(s: string, from: nat): (r: seq<string>)
    requires from <= |s|
    ensures |r| <= |s| - from
    decreases |s| - from
  {
    match Exec(Address, s, from)
    case None => []
    case Some(m) =>
      assert from < m.end;
      [m.group] + AddressesFrom(s, m.end)
  }

  /** Each extracted address is text of `s` at or after the cursor. */
  lemma {:induction false} AddressesFromOccur(s: string, from: nat)
    requires from <= |s|
    ensures forall k :: 0 <= k < |AddressesFrom(s, from)| ==> OccursFrom(s, from, AddressesFrom(s, from)[k])
    decreases |s| - from
  {
    var r := AddressesFrom(s, from);
    if Exec(Address, s, from).Some? {
      var m := Exec(Address, s, from).value;
      MatchOccurs(s, from);
      AddressesFromOccur(s, m.end);
      var rest := AddressesFrom(s, m.end);
      assert r == [m.group] + rest;
      forall k | 0 <= k < |r| ensures OccursFrom(s, from, r[k]) {
        if k > 0 {
          OccursLater(s, from, m.end, rest[k - 1]);
        }
      }
    }
  }

  /** The text of an address match is found at or after the cursor. */
  lemma MatchOccurs(s: string, from: nat)
    requires Exec(Address, s, from).Some?
    ensures OccursFrom(s, from, Exec(Address, s, from).value.group)
  {
    var m := Exec(Address, s, from).value;
    assert MatchAt(Address, s, m.start) == Some(m);
    assert StartsAt(s, m.start, m.group);
  }

  /** `t` occurs in `s` at or after index `from`. */
  ghost predicate OccursFrom(s: string, from: nat, t: string) {
    exists j :: from <= j && StartsAt(s, j, t)
  }

  lemma OccursLater(s: string, from: nat, to: nat, t: string)
    requires from <= to && OccursFrom(s, to, t)
    ensures OccursFrom(s, from, t)
  {
    var j :| to <= j && StartsAt(s, j, t);
    assert from <= j;
  }

  /** All leftmost, non-overlapping address matches of a chunk, from a cursor reset to 0. */
  function AllAddresses(s: string): (r: seq<string>)
    ensures |r| <= |s|
  {
    AddressesFrom(s, 0)
  }

  lemma {:induction false} AddressesFromAreHosts(s: string, from: nat)
    requires from <= |s|
    ensures forall k :: 0 <= k < |AddressesFrom(s, from)| ==> IsHostToken(AddressesFrom(s, from)[k])
    decreases |s| - from
  {
    match Exec(Address, s, from)
    case None =>
    case Some(m) =>
      AddressAtIsHost(s, m.start);
      AddressesFromAreHosts(s, m.end);
  }

  /** Every extracted address is "localhost" or a dotted quad of octets. */
  lemma AllAddressesAreHosts(s: string)
    ensures forall k :: 0 <= k < |AllAddresses(s)| ==> IsHostToken(AllAddresses(s)[k])
  {
    AddressesFromAreHosts(s, 0);
  }

  /** The `test` that guards the extraction succeeds exactly when the extraction finds something. */
  lemma AllAddressesNonEmpty(s: string)
    ensures AllAddresses(s) != [] <==> Test(Address, s)
  {
  }

  /** No address match starts at whitespace. */
  lemma SpaceStartsNoAddress(s: string, i: nat)
    requires i < |s| && IsSpace(s[i])
    ensures AddressAt(s, i).None?
  {
    if AddressAt(s, i).Some? {
      var m := AddressAt(s, i).value;
      AddressAtIsHost(s, i);
      HostTokenHasNoSpace(m.group);
    }
  }

  /** A host token at `i` that whitespace or the end of `s` follows is matched exactly. */
  lemma HostTokenMatched(s: string, i: nat, e: nat)
    requires i < e <= |s| && IsHostToken(s[i..e]) && (e < |s| ==> IsSpace(s[e]))
    ensures AddressAt(s, i) == Some(Match(i, e, s[i..e]))
  {
    if s[i..e] == LOCALHOST {
      assert StartsAt(s, i, LOCALHOST);
    } else {
      QuadMatchedWhole(s, i, e);
    }
  }

  /** A dotted quad that whitespace or the end of `s` follows is matched to its end and no further. */
  lemma QuadMatchedWhole(s: string, i: nat, e: nat)
    requires i < e <= |s| && IsDottedQuad(s[i..e]) && (e < |s| ==> IsSpace(s[e]))
    ensures AddressAt(s, i) == Some(Match(i, e, s[i..e]))
  {
    AddressAtComplete(s, i, e);
    AddressAtIsHost(s, i);
    var m := AddressAt(s, i).value;
    SpaceBoundsToken(s, i, e, m.end, m.group);
  }

  /** A host token read from `i` cannot reach past whitespace at `e`. */
  lemma SpaceBoundsToken(s: string, i: nat, e: nat, end: nat, t: string)
    requires i < e <= end <= |s| && t == s[i..end] && IsHostToken(t) && (e < |s| ==> IsSpace(s[e]))
    ensures end == e
  {
    if e < end {
      assert t[e - i] == s[e];
      HostTokenHasNoSpace(t);
    }
  }

  /** A match at the cursor is collected, and the scan goes on from its end. */
  lemma AddressesFromMatch(s: string, from: nat, e: nat)
    requires from < e <= |s| && AddressAt(s, from) == Some(Match(from, e, s[from..e]))
    ensures AddressesFrom(s, from) == [s[from..e]] + AddressesFrom(s, e)
  {
    assert Exec(Address, s, from) == Some(Match(from, e, s[from..e]));
  }

  /** Whitespace at the cursor is skipped: no match starts there. */
  lemma AddressesFromSkip(s: string, from: nat)
    requires from < |s| && IsSpace(s[from])
    ensures AddressesFrom(s, from) == AddressesFrom(s, from + 1)
  {
    SpaceStartsNoAddress(s, from);
    assert Exec(Address, s, from) == Exec(Address, s, from + 1);
  }

  /** Nothing is found once the cursor has reached the end of the chunk. */
  lemma AddressesFromEnd(s: string, from: nat)
    requires from == |s|
    ensures AddressesFrom(s, from) == []
  {
  }

  /** A host token that ends the chunk is the last address collected. */
  lemma AddressesFromLast(s: string, from: nat, t: string)
    requires from <= |s| && s[from..] == t && IsHostToken(t)
    ensures AddressesFrom(s, from) == [t]
  {
    assert s[from..|s|] == s[from..];
    AddressesFromToken(s, from, |s|, t);
    AddressesFromEnd(s, |s|);
  }

  /** A host token at the cursor that whitespace or the end follows is collected whole. */
  lemma AddressesFromToken(s: string, from: nat, e: nat, t: string)
    requires from <= e <= |s| && s[from..e] == t && IsHostToken(t)
    requires e < |s| ==> IsSpace(s[e])
    ensures AddressesFrom(s, from) == [t] + AddressesFrom(s, e)
  {
    HostTokenHasNoComma(t);
    HostTokenMatched(s, from, e);
    AddressesFromMatch(s, from, e);
  }

  /** A host token, then whitespace: the token is collected and the scan goes on after the whitespace. */
  lemma AddressesFromCons(s: string, from: nat, e: nat, t: string)
    requires from <= e < |s| && s[from..e] == t && IsHostToken(t) && IsSpace(s[e])
    ensures AddressesFrom(s, from) == [t] + AddressesFrom(s, e + 1)
  {
    AddressesFromToken(s, from, e, t);
    AddressesFromSkip(s, e);
  }

  /** The first of two or more pieces of a join, and the separator after it. */
  lemma JoinHead(s: string, from: nat, ts: seq<string>, sep: char)
    requires from <= |s| && s[from..] == Join(ts, [sep]) && |ts| > 1
    ensures from + |ts[0]| < |s| && s[from..from + |ts[0]|] == ts[0] && s[from + |ts[0]|] == sep
  {
    var t, e := ts[0], from + |ts[0]|;
    assert s[from..] == t + [sep] + Join(ts[1..], [sep]);
    assert s[e] == s[from..][|t|];
    assert s[from..e] == s[from..][..|t|];
  }

  /** What follows the first separator of a join of two or more pieces is the join of the rest. */
  lemma JoinTail(s: string, from: nat, ts: seq<string>, sep: char)
    requires from <= |s| && s[from..] == Join(ts, [sep]) && |ts| > 1
    ensures from + |ts[0]| + 1 <= |s| && s[from + |ts[0]| + 1..] == Join(ts[1..], [sep])
  {
    var t, e := ts[0], from + |ts[0]|;
    assert s[from..] == t + [sep] + Join(ts[1..], [sep]);
    assert s[e + 1..] == s[from..][|t| + 1..];
  }

  /**
   * Host tokens `ts` lie in `s` from `c` on, one whitespace separator `sep`
   * between neighbours and nothing after the last one; stated position by
   * position.
   */
  predicate SpacedAt(s: string, c: nat, ts: seq<string>, sep: char)
    decreases |ts|
  {
    c <= |s| &&
    if ts == [] then c == |s|
    else if |ts| == 1 then s[c..] == ts[0]
    else
      c + |ts[0]| < |s| && s[c..c + |ts[0]|] == ts[0] && s[c + |ts[0]|] == sep
      && SpacedAt(s, c + |ts[0]| + 1, ts[1..], sep)
  }

  /** Every entry of `ts` is a host token, stated one entry at a time. */
  predicate HostTokens(ts: seq<string>) {
    ts == [] || (IsHostToken(ts[0]) && HostTokens(ts[1..]))
  }

  lemma {:induction false} HostTokensAll(ts: seq<string>)
    requires forall k :: 0 <= k < |ts| ==> IsHostToken(ts[k])
    ensures HostTokens(ts)
  {
    if ts != [] {
      var rest := ts[1..];
      forall k | 0 <= k < |rest|
        ensures IsHostToken(rest[k])
      {
        assert rest[k] == ts[k + 1];
      }
      HostTokensAll(rest);
    }
  }

  /** A join of pieces with one separator character lays the pieces out position by position. */
  lemma {:induction false} JoinSpacedAt(s: string, c: nat, ts: seq<string>, sep: char)
    requires c <= |s| && s[c..] == Join(ts, [sep])
    ensures SpacedAt(s, c, ts, sep)
    decreases |ts|
  {
    if |ts| > 1 {
      JoinHead(s, c, ts, sep);
      JoinTail(s, c, ts, sep);
      JoinSpacedAt(s, c + |ts[0]| + 1, ts[1..], sep);
    }
  }

  /**
   * From a cursor where host tokens separated by one whitespace character
   * begin, the `exec` loop collects every one of them, in order, repeats
   * included.
   */
  lemma {:induction false} AddressesFromSpaced(s: string, from: nat, ts: seq<string>, sep: char)
    requires IsSpace(sep) && SpacedAt(s, from, ts, sep) && HostTokens(ts)
    ensures AddressesFrom(s, from) == ts
    decreases |ts|
  {
    if ts == [] {
      AddressesFromEnd(s, from);
    } else if |ts| == 1 {
      AddressesFromLast(s, from, ts[0]);
    } else {
      var e := from + |ts[0]|;
      assert s[from..e] == ts[0] && s[e] == sep && IsHostToken(ts[0]);
      AddressesFromSpaced(s, e + 1, ts[1..], sep);
      AddressesFromCons(s, from, e, ts[0]);
      ConsBack(AddressesFrom(s, from), AddressesFrom(s, e + 1), ts);
    }
  }

  lemma ConsBack<T>(a: seq<T>, b: seq<T>, ts: seq<T>)
    requires ts != [] && a == [ts[0]] + b && b == ts[1..]
    ensures a == ts
  {
  }

  /**
   * The extraction finds every address of the chunk: host tokens separated
   * by whitespace come back all of them, in order, repeats included.
   */
  lemma AllAddressesSpaced(ts: seq<string>, sep: char)
    requires IsSpace(sep) && forall k :: 0 <= k < |ts| ==> IsHostToken(ts[k])
    ensures AllAddresses(Join(ts, [sep])) == ts
  {
    var s := Join(ts, [sep]);
    assert s[0..] == s;
    JoinSpacedAt(s, 0, ts, sep);
    HostTokensAll(ts);
    AddressesFromSpaced(s, 0, ts, sep);
  }

  /**
   * The `while ((groups = REGEX_IPV4_ADDRESS.exec(data)) != null)` loop of
   * web/collector.js, after the cursor is reset to 0.
   */
  method ExtractAddresses(data: string) returns (result: seq<string>)
    ensures result == AllAddresses(data)
  {
    result := [];
    var lastIndex := 0;
    var groups := Exec(Address, data, lastIndex);
    while groups.Some?
      invariant lastIndex <= |data|
      invariant groups == Exec(Address, data, lastIndex)
      invariant result + AddressesFrom(data, lastIndex) == AllAddresses(data)
      decreases |data| - lastIndex
    {
      result := result + [groups.value.group];
      lastIndex := groups.value.end;
      groups := Exec(Address, data, lastIndex);
    }
  }

  /**
   * REGEX_ADDRESS of web/index.js, `^(A)(?:\s*,\s*(A))*$`: the whole string is
   * host tokens separated by commas, with whitespace allowed around each comma
   * and nowhere else. Anchored at both ends, it starts and ends with an address.
   */
  predicate IsAddressList(s: string) {
    AllListPieces(Split(s, ','))
  }

  predicate AllListPieces(pieces: seq<string>) {
    forall k :: 0 <= k < |pieces| ==> IsListPiece(pieces[k], k == 0, k == |pieces| - 1)
  }

  /**
   * One comma-separated piece: a host token, with whitespace before it unless
   * it is the first piece and after it unless it is the last.
   */
  predicate IsListPiece(piece: string, first: bool, last: bool) {
    var lead := SpacesEnd(piece, 0);
    var tail := SpacesStart(piece, lead, |piece|);
    IsHostToken(piece[lead..tail]) && (first ==> lead == 0) && (last ==> tail == |piece|)
  }

  /**
   * A piece is accepted exactly when it is a host token with whitespace
   * around it, none before it if it is first and none after it if it is last.
   */
  lemma ListPieceIff(piece: string, first: bool, last: bool)
    ensures IsListPiece(piece, first, last) <==> exists a, b ::
      && SpacesBetween(piece, 0, a) && a <= b && SpacesBetween(piece, b, |piece|)
      && IsHostToken(piece[a..b]) && (first ==> a == 0) && (last ==> b == |piece|)
  {
    var lead := SpacesEnd(piece, 0);
    var tail := SpacesStart(piece, lead, |piece|);
    assert SpacesBetween(piece, 0, lead) && SpacesBetween(piece, tail, |piece|);
    forall a, b | SpacesBetween(piece, 0, a) && a <= b && SpacesBetween(piece, b, |piece|) && IsHostToken(piece[a..b])
      ensures a == lead && b == tail
    {
      ListPieceBounds(piece, a, b);
    }
  }

  /** The whitespace around a host token is exactly the runs the matcher skips. */
  lemma ListPieceBounds(piece: string, a: nat, b: nat)
    requires SpacesBetween(piece, 0, a) && a <= b && SpacesBetween(piece, b, |piece|)
    requires IsHostToken(piece[a..b])
    ensures SpacesEnd(piece, 0) == a && SpacesStart(piece, a, |piece|) == b
  {
    var t := piece[a..b];
    HostTokenHasNoComma(t);
    HostTokenHasNoSpace(t);
    forall m | a <= m < b ensures !IsSpace(piece[m]) { assert piece[m] == t[m - a] && t[m - a] in t; }
    PaddedBounds(piece, a, b);
  }

  lemma PaddedBounds(piece: string, a: nat, b: nat)
    requires SpacesBetween(piece, 0, a) && a < b && SpacesBetween(piece, b, |piece|)
    requires forall m :: a <= m < b ==> !IsSpace(piece[m])
    ensures SpacesEnd(piece, 0) == a && SpacesStart(piece, a, |piece|) == b
  {
    SpacesEndAt(piece, 0, a);
    var tail := SpacesStart(piece, a, |piece|);
    assert tail < |piece| ==> IsSpace(piece[tail]);
  }

  /** An address list begins with the first piece's address and ends with the last piece's. */
  lemma ListEnds(s: string)
    requires IsAddressList(s)
    ensures s != [] && !IsSpace(s[0]) && s[0] != ',' && !IsSpace(s[|s| - 1]) && s[|s| - 1] != ','
  {
    JoinSplit(s, ',');
    JoinedListEnds(Split(s, ','), s);
  }

  lemma JoinedListEnds(pieces: seq<string>, s: string)
    requires pieces != [] && AllListPieces(pieces) && s == Join(pieces, [','])
    ensures s != [] && !IsSpace(s[0]) && s[0] != ',' && !IsSpace(s[|s| - 1]) && s[|s| - 1] != ','
  {
    var n := |pieces|;
    var first, last := pieces[0], pieces[n - 1];
    assert IsListPiece(first, true, n == 1);
    assert IsListPiece(last, n == 1, true);
    FirstPieceEdge(first, n == 1);
    LastPieceEdge(last, n == 1);
    JoinPrefix(pieces, [',']);
    JoinSuffix(pieces, [',']);
    assert s[0] == s[..|first|][0];
    assert s[|s| - 1] == s[|s| - |last|..][|last| - 1];
  }

  lemma FirstPieceEdge(piece: string, last: bool)
    requires IsListPiece(piece, true, last)
    ensures piece != [] && !IsSpace(piece[0]) && piece[0] != ','
  {
    var h := piece[0..SpacesStart(piece, 0, |piece|)];
    HostEdge(h);
    assert piece[0] == h[0];
  }

  lemma LastPieceEdge(piece: string, first: bool)
    requires IsListPiece(piece, first, true)
    ensures piece != [] && !IsSpace(piece[|piece| - 1]) && piece[|piece| - 1] != ','
  {
    var h := piece[SpacesEnd(piece, 0)..|piece|];
    HostEdge(h);
    assert piece[|piece| - 1] == h[|h| - 1];
  }

  /** A host token is not empty, and neither its first nor its last character is whitespace or a comma. */
  lemma HostEdge(h: string)
    requires IsHostToken(h)
    ensures h != [] && !IsSpace(h[0]) && h[0] != ',' && !IsSpace(h[|h| - 1]) && h[|h| - 1] != ','
  {
    HostTokenHasNoComma(h);
    HostTokenHasNoSpace(h);
    assert h[0] in h && h[|h| - 1] in h;
  }
}
