/**
 * The host-list and parameter bookkeeping of web/index.js: the list of
 * address entries on the page, the ready flags of the form parameters, the
 * address input field, and the small folds applied to session results.
 */
module Index {
  import opened Wrappers
  import opened Strings
  import opened Patterns

  /** The keys of the `parameters` object. */
  const PARAMETER_NAMES: set<string> := {"username", "password", "samples", "timeout", "days", "size"}

  predicate Distinct(xs: seq<string>) {
    forall i, j :: 0 <= i < j < |xs| ==> xs[i] != xs[j]
  }

  /** The elements of `xs` without repeats, kept where they first occur (`unique` in splitHosts). */
  function Dedup(xs: seq<string>): (r: seq<string>)
    ensures Distinct(r)
    ensures forall x :: x in r <==> x in xs
  {
    if xs == [] then []
    else
      var init, x := xs[..|xs| - 1], xs[|xs| - 1];
      assert xs == init + [x];
      var d := Dedup(init);
      if x in d then d else d + [x]
  }

  /** Where `x` first occurs in `xs`. */
  function FirstIndex(xs: seq<string>, x: string): (i: nat)
    requires x in xs
    ensures i < |xs| && xs[i] == x && forall j :: 0 <= j < i ==> xs[j] != x
  {
    if xs[0] == x then 0
    else
      var i := FirstIndex(xs[1..], x);
      i + 1
  }

  /** An index holding `x` with no `x` before it is where `x` first occurs. */
  lemma FirstIndexUnique(xs: seq<string>, x: string, i: nat)
    requires i < |xs| && xs[i] == x && forall j :: 0 <= j < i ==> xs[j] != x
    ensures FirstIndex(xs, x) == i
  {
  }

  /** Dedup keeps the order of first occurrences. */
  lemma {:induction false} DedupOrder(xs: seq<string>)
    ensures forall i, j :: 0 <= i < j < |Dedup(xs)| ==> FirstIndex(xs, Dedup(xs)[i]) < FirstIndex(xs, Dedup(xs)[j])
  {
    if xs != [] {
      var init, x := xs[..|xs| - 1], xs[|xs| - 1];
      assert xs == init + [x];
      DedupOrder(init);
      var d := Dedup(init);
      forall y | y in init
        ensures FirstIndex(xs, y) == FirstIndex(init, y)
      {
        var k := FirstIndex(init, y);
        assert xs[..k] == init[..k];
        FirstIndexUnique(xs, y, k);
      }
      if x !in d {
        assert xs[..|init|] == init;
        FirstIndexUnique(xs, x, |init|);
        forall i, j | 0 <= i < j < |Dedup(xs)|
          ensures FirstIndex(xs, Dedup(xs)[i]) < FirstIndex(xs, Dedup(xs)[j])
        {
          if j == |d| {
            assert Dedup(xs)[i] == d[i] && d[i] in init;
          } else {
            assert Dedup(xs)[i] == d[i] && Dedup(xs)[j] == d[j];
          }
        }
      }
    }
  }

  /**
   * splitHosts: null unless the whole string passes REGEX_ADDRESS, else the
   * comma-separated pieces without repeats, in first-occurrence order.
   */
  method SplitHosts(addresses: string) returns (r: Option<seq<string>>)
    ensures r.None? <==> !IsAddressList(addresses)
    ensures r.Some? ==> r.value == Dedup(Split(addresses, ','))
  {
    if !IsAddressList(addresses) {
      return None;
    }
    var pieces := if ',' in addresses then Split(addresses, ',') else [addresses];
    if ',' !in addresses {
      SplitNoSeparator(addresses, ',');
    }
    var unique := Unique(pieces);
    return Some(unique);
  }

  /** The loop of splitHosts: each piece once, where it first occurs. */
  method Unique(pieces: seq<string>) returns (unique: seq<string>)
    ensures unique == Dedup(pieces)
  {
    unique := [];
    var i := 0;
    while i < |pieces|
      invariant 0 <= i <= |pieces|
      invariant unique == Dedup(pieces[..i])
    {
      var address := pieces[i];
      assert pieces[..i + 1] == pieces[..i] + [address];
      if address !in unique {
        unique := unique + [address];
      }
      i := i + 1;
    }
    assert pieces[..i] == pieces;
  }

  /** A list piece without the whitespace REGEX_ADDRESS allows around its commas. */
  function Trim(piece: string): (t: string)
    ensures |t| <= |piece|
    ensures (forall i :: 0 <= i < |piece| ==> !IsSpace(piece[i])) ==> t == piece
  {
    var lead := SpacesEnd(piece, 0);
    piece[lead..SpacesStart(piece, lead, |piece|)]
  }

  function TrimAll(pieces: seq<string>): (r: seq<string>)
    ensures |r| == |pieces|
    ensures forall k :: 0 <= k < |r| ==> r[k] == Trim(pieces[k])
  {
    if pieces == [] then [] else [Trim(pieces[0])] + TrimAll(pieces[1..])
  }

  /**
   * splitHosts as its callers need it: the same validation, but each piece
   * trimmed before the repeats are dropped.
   */
  method SplitHostsTrimmed(addresses: string) returns (r: Option<seq<string>>)
    ensures r.None? <==> !IsAddressList(addresses)
    ensures r.Some? ==> r.value == Dedup(TrimAll(Split(addresses, ',')))
  {
    if !IsAddressList(addresses) {
      return None;
    }
    var pieces := if ',' in addresses then Split(addresses, ',') else [addresses];
    if ',' !in addresses {
      SplitNoSeparator(addresses, ',');
    }
    var unique := Unique(TrimAll(pieces));
    return Some(unique);
  }

  /** Every address the corrected splitHosts returns is a host token, and none twice. */
  lemma TrimmedHosts(s: string)
    requires IsAddressList(s)
    ensures var hosts := Dedup(TrimAll(Split(s, ',')));
      Distinct(hosts) && forall x :: x in hosts ==> IsHostToken(x)
  {
    var pieces := Split(s, ',');
    forall x | x in TrimAll(pieces) ensures IsHostToken(x) {
      var k :| 0 <= k < |pieces| && TrimAll(pieces)[k] == x;
      assert IsListPiece(pieces[k], k == 0, k == |pieces| - 1);
    }
  }

  /**
   * splitHosts as written keeps the whitespace REGEX_ADDRESS lets through:
   * `t, t` passes and yields the host twice, the second time with a space
   * in front, which is not an address; trimmed, it yields the host once.
   */
  lemma SplitHostsKeepsSpaces(t: string)
    requires IsHostToken(t)
    ensures var s := t + ", " + t;
      && IsAddressList(s)
      && Dedup(Split(s, ',')) == [t, " " + t]
      && !IsHostToken(" " + t)
      && Dedup(TrimAll(Split(s, ','))) == [t]
  {
    SpacedPair(t);
    SpacedPiece(t);
    TrimmedPair(t);
    assert t != " " + t by { assert |" " + t| == |t| + 1; }
    DedupPair(t, " " + t);
    DedupPair(t, t);
  }

  lemma TrimmedPair(t: string)
    requires IsHostToken(t)
    ensures TrimAll([t, " " + t]) == [t, t]
  {
    SpacedPiece(t);
    BarePiece(t);
    var trimmed := TrimAll([t, " " + t]);
    assert trimmed[0] == t && trimmed[1] == t;
  }

  /** `t, t` splits into `t` and `t` with a space in front, and REGEX_ADDRESS accepts it. */
  lemma SpacedPair(t: string)
    requires IsHostToken(t)
    ensures Split(t + ", " + t, ',') == [t, " " + t]
    ensures IsAddressList(t + ", " + t)
  {
    var b := " " + t;
    HostTokenHasNoComma(t);
    SplitCommaSpace(t);
    SpacedPiece(t);
    BarePiece(t);
    TwoPieceList(t + ", " + t, t, b);
  }

  /** A host token alone is a valid first piece and trims to itself. */
  lemma BarePiece(t: string)
    requires IsHostToken(t)
    ensures IsListPiece(t, true, false)
    ensures Trim(t) == t
  {
    HostTokenHasNoSpace(t);
    HostTokenHasNoComma(t);
    assert t[0] in t && t[|t| - 1] in t;
    assert SpacesEnd(t, 0) == 0;
    assert SpacesStart(t, 0, |t|) == |t|;
    assert t[0..|t|] == t;
  }

  lemma TwoPieceList(s: string, a: string, b: string)
    requires Split(s, ',') == [a, b]
    requires IsListPiece(a, true, false) && IsListPiece(b, false, true)
    ensures IsAddressList(s)
  {
    var pieces := Split(s, ',');
    assert forall k :: 0 <= k < 2 ==> IsListPiece(pieces[k], k == 0, k == 1);
  }

  lemma SplitCommaSpace(t: string)
    requires ',' !in t
    ensures Split(t + ", " + t, ',') == [t, " " + t]
  {
    var comma: string := [','];
    var space: string := [' '];
    assert ", " == comma + space;
    var b := space + t;
    assert t + (comma + space) + t == t + [','] + b;
    assert ',' !in b;
    SplitPair(t, ',', b);
  }

  /** A host token with a space in front is a valid last list piece, trims to the token, and is not a token. */
  lemma SpacedPiece(t: string)
    requires IsHostToken(t)
    ensures Trim(" " + t) == t
    ensures IsListPiece(" " + t, false, true)
    ensures !IsHostToken(" " + t)
  {
    var b := " " + t;
    HostTokenHasNoComma(t);
    HostTokenHasNoSpace(t);
    assert t[0] in t && t[|t| - 1] in t;
    assert b[1] == t[0];
    var lead := SpacesEnd(b, 0);
    assert lead == 1;
    assert b[|b| - 1] == t[|t| - 1];
    var tail := SpacesStart(b, lead, |b|);
    assert tail == |b|;
    assert b[lead..tail] == t;
    assert Trim(b) == t;
    assert IsListPiece(b, false, true);
    SpacedNotQuad(t);
    assert b != LOCALHOST by { assert LOCALHOST[0] == 'l'; }
  }

  /** No dotted quad starts with a space: its first octet would. */
  lemma SpacedNotQuad(t: string)
    ensures !IsDottedQuad(" " + t)
  {
    SplitHead(' ', t, '.');
    var first := Split(" " + t, '.')[0];
    assert first[0] == ' ';
    OctetIsByte(first);
  }

  lemma DedupPair(x: string, y: string)
    ensures Dedup([x, y]) == if x == y then [x] else [x, y]
  {
    assert Dedup([x]) == [x] by {
      assert [x][..0] == [];
    }
    assert [x, y][..1] == [x];
  }

  /** On a list without whitespace, every piece that splitHosts returns is a host token. */
  lemma {:induction false} AddressListPieces(s: string)
    requires IsAddressList(s)
    requires forall i :: 0 <= i < |s| ==> !IsSpace(s[i])
    ensures forall x :: x in Dedup(Split(s, ',')) ==> IsHostToken(x)
  {
    var pieces := Split(s, ',');
    JoinSplit(s, ',');
    forall k | 0 <= k < |pieces|
      ensures IsHostToken(pieces[k])
    {
      var p := pieces[k];
      JoinHasPiece(pieces, [','], k);
      assert IsListPiece(p, k == 0, k == |pieces| - 1);
      forall m | 0 <= m < |p| ensures !IsSpace(p[m]) {
        assert p[m] in p;
        assert p[m] in Join(pieces, [',']);
      }
      var lead := SpacesEnd(p, 0);
      var tail := SpacesStart(p, 0, |p|);
      assert lead == 0 && tail == |p|;
      assert p[lead..tail] == p;
    }
  }

  /** `h` with `x` appended unless it is there (addHost). */
  function Add(h: seq<string>, x: string): seq<string> {
    if x in h then h else h + [x]
  }

  /** The list after addHost of each piece in turn. */
  function AddAll(h: seq<string>, pieces: seq<string>): (r: seq<string>)
    ensures forall x :: x in r <==> x in h || x in pieces
    ensures Distinct(h) ==> Distinct(r)
    ensures |r| >= |h| && r[..|h|] == h
  {
    if pieces == [] then h
    else
      var init := pieces[..|pieces| - 1];
      assert pieces == init + [pieces[|pieces| - 1]];
      var r := Add(AddAll(h, init), pieces[|pieces| - 1]);
      assert r[..|h|] == AddAll(h, init)[..|h|];
      r
  }

  /** The pieces addHost turned away, in input order, repeats included. */
  function Refused(h: seq<string>, pieces: seq<string>): (r: seq<string>)
    ensures forall x :: x in r ==> x in pieces
    ensures forall x :: x in pieces && x in h ==> x in r
  {
    if pieces == [] then []
    else
      var init, x := pieces[..|pieces| - 1], pieces[|pieces| - 1];
      assert pieces == init + [x];
      Refused(h, init) + (if x in AddAll(h, init) then [x] else [])
  }

  /** One more piece: the list grows as addHost decides. */
  lemma AddAllSnoc(h: seq<string>, pieces: seq<string>, x: string)
    ensures AddAll(h, pieces + [x]) == Add(AddAll(h, pieces), x)
  {
    assert (pieces + [x])[..|pieces|] == pieces;
  }

  lemma RefusedSnoc(h: seq<string>, pieces: seq<string>, x: string)
    ensures Refused(h, pieces + [x]) == Refused(h, pieces) + (if x in AddAll(h, pieces) then [x] else [])
  {
    assert (pieces + [x])[..|pieces|] == pieces;
  }

  lemma DedupSnoc(xs: seq<string>, x: string)
    ensures Dedup(xs + [x]) == if x in Dedup(xs) then Dedup(xs) else Dedup(xs) + [x]
  {
    assert (xs + [x])[..|xs|] == xs;
  }

  /** Nothing is turned away exactly when the pieces are distinct and none is on the list yet. */
  lemma {:induction false} NothingRefused(h: seq<string>, pieces: seq<string>)
    ensures Refused(h, pieces) == [] <==> Distinct(pieces) && forall x :: x in pieces ==> x !in h
  {
    if pieces != [] {
      var init, x := pieces[..|pieces| - 1], pieces[|pieces| - 1];
      assert pieces == init + [x];
      NothingRefused(h, init);
      if Distinct(pieces) {
        assert Distinct(init);
        forall k | 0 <= k < |init| ensures init[k] != x {
          assert init[k] == pieces[k];
        }
      }
      if Distinct(init) && x !in init {
        assert Distinct(pieces);
      }
    }
  }

  /** With no empty pieces, addHosts returns "" exactly when every piece was newly added. */
  lemma AddHostsMessage(h: seq<string>, pieces: seq<string>)
    requires forall k :: 0 <= k < |pieces| ==> pieces[k] != ""
    ensures Join(Dedup(Refused(h, pieces)), ", ") == "" <==> Distinct(pieces) && forall x :: x in pieces ==> x !in h
  {
    NothingRefused(h, pieces);
    var d := Dedup(Refused(h, pieces));
    if d != [] {
      assert d[0] in pieces;
      JoinHasPiece(d, ", ", 0);
      assert d[0][0] in Join(d, ", ");
    }
  }

  /** What the entry field holds after enterCSV. */
  function EnteredValue(input: string, csv: string, keep: bool): (r: string)
    ensures EndsWith(r, csv)
    ensures forall i :: 0 <= i < |r| - |csv| ==> !IsSpace(r[i])
    ensures r == csv <==> !keep || StripSpaces(input) == []
  {
    var stripped := StripSpaces(input);
    (if keep && |stripped| != 0 then stripped + "," else "") + csv
  }

  /** The entered value lists the old entries (when kept), then the CSV's. */
  lemma EnteredEntries(input: string, csv: string, keep: bool)
    ensures Split(EnteredValue(input, csv, keep), ',') ==
      (if keep && StripSpaces(input) != [] then Split(StripSpaces(input), ',') else []) + Split(csv, ',')
  {
    var stripped := StripSpaces(input);
    if keep && stripped != [] {
      SplitConcat(stripped, ',', csv);
      assert stripped + "," + csv == stripped + [','] + csv;
    }
  }

  /** The row label importPanorama and collectSamples give a device type. */
  function DeviceName(firewall: bool): (r: string)
    ensures r != "" && r != "mixed"
    ensures r == "firewall" <==> firewall
  {
    if firewall then "firewall" else "panorama"
  }

  /**
   * The `totalDevice` column: empty for no rows, the common device name when
   * all rows agree, "mixed" otherwise.
   */
  method TotalDevice(firewalls: seq<bool>) returns (total: string)
    ensures total == if firewalls == [] then ""
      else if forall k :: 0 <= k < |firewalls| ==> firewalls[k] == firewalls[0] then DeviceName(firewalls[0])
      else "mixed"
  {
    total := "";
    var i := 0;
    while i < |firewalls|
      invariant 0 <= i <= |firewalls|
      invariant i == 0 ==> total == ""
      invariant i > 0 ==> total == if forall k :: 0 <= k < i ==> firewalls[k] == firewalls[0]
        then DeviceName(firewalls[0]) else "mixed"
    {
      var device := DeviceName(firewalls[i]);
      total := if total == "" then device else (if total == device then device else "mixed");
      i := i + 1;
    }
  }

  /** `xs` without its leading empty strings. */
  function SkipEmpty(xs: seq<string>): (r: seq<string>)
    ensures r == [] || r[0] != ""
    ensures (forall k :: 0 <= k < |xs| ==> xs[k] != "") ==> r == xs
  {
    if xs != [] && xs[0] == "" then SkipEmpty(xs[1..]) else xs
  }

  /** SkipEmpty drops a run of empty strings from the front and nothing else. */
  lemma {:induction false} SkipEmptyDropsLeadingEmpties(xs: seq<string>)
    ensures |SkipEmpty(xs)| <= |xs|
    ensures SkipEmpty(xs) == xs[|xs| - |SkipEmpty(xs)|..]
    ensures forall j :: 0 <= j < |xs| - |SkipEmpty(xs)| ==> xs[j] == ""
  {
    if xs != [] && xs[0] == "" {
      var t := xs[1..];
      var r := SkipEmpty(t);
      assert SkipEmpty(xs) == r;
      SkipEmptyDropsLeadingEmpties(t);
      var n := |xs| - |r|;
      assert t[n - 1..] == xs[n..];
      forall j | 0 <= j < n ensures xs[j] == "" {
        if j > 0 {
          assert xs[j] == t[j - 1];
        }
      }
    }
  }

  lemma JoinNonEmpty(xs: seq<string>, sep: string)
    requires xs != [] && xs[0] != ""
    ensures Join(xs, sep) != ""
  {
    assert |Join(xs, sep)| >= |xs[0]|;
  }

  lemma {:induction false} SkipEmptySnoc(xs: seq<string>, x: string)
    ensures SkipEmpty(xs + [x]) ==
      if SkipEmpty(xs) == [] then (if x == "" then [] else [x]) else SkipEmpty(xs) + [x]
  {
    if xs != [] {
      assert (xs + [x])[1..] == xs[1..] + [x];
      if xs[0] == "" {
        SkipEmptySnoc(xs[1..], x);
      }
    } else {
      assert [x][1..] == [];
    }
  }

  /** One turn of the CSV loop: the separator goes in exactly when something was kept before. */
  lemma CsvStep(xs: seq<string>, x: string, csv: string)
    requires csv == Join(SkipEmpty(xs), ",") && (csv == "" <==> SkipEmpty(xs) == [])
    ensures var next := csv + (if csv == "" then "" else ",") + x;
      next == Join(SkipEmpty(xs + [x]), ",") && (next == "" <==> SkipEmpty(xs + [x]) == [])
  {
    var kept := SkipEmpty(xs);
    SkipEmptySnoc(xs, x);
    if kept != [] {
      JoinSnoc(kept, x, ",");
      JoinNonEmpty(kept + [x], ",");
    } else if x != "" {
      JoinNonEmpty([x], ",");
    }
  }

  /**
   * The comma join of importPanorama: a separator goes in only once the
   * accumulated text is non-empty, so leading empty entries leave no trace.
   */
  method JoinCsv(addresses: seq<string>) returns (csv: string)
    ensures csv == Join(SkipEmpty(addresses), ",")
  {
    csv := "";
    var i := 0;
    while i < |addresses|
      invariant 0 <= i <= |addresses|
      invariant csv == Join(SkipEmpty(addresses[..i]), ",")
      invariant csv == "" <==> SkipEmpty(addresses[..i]) == []
    {
      var address := addresses[i];
      assert addresses[..i + 1] == addresses[..i] + [address];
      CsvStep(addresses[..i], address, csv);
      csv := csv + (if csv == "" then "" else ",") + address;
      i := i + 1;
    }
    assert addresses[..i] == addresses;
  }

  /** The CSV built from a device list splits back into that list. */
  lemma ImportedCsv(addresses: seq<string>)
    requires addresses != []
    requires forall k :: 0 <= k < |addresses| ==> IsHostToken(addresses[k])
    ensures SkipEmpty(addresses) == addresses
    ensures Split(Join(addresses, ","), ',') == addresses
  {
    forall k | 0 <= k < |addresses| ensures addresses[k] != "" && ',' !in addresses[k] {
      HostTokenHasNoComma(addresses[k]);
    }
    SplitJoin(addresses, ',');
  }

  /** The message loop of addHosts: the refused addresses separated by ", ". */
  method JoinRemaining(duplicates: seq<string>) returns (remaining: string)
    requires duplicates != []
    ensures remaining == Join(duplicates, ", ")
  {
    remaining := duplicates[0];
    var index := 1;
    while index < |duplicates|
      invariant 1 <= index <= |duplicates|
      invariant remaining == Join(duplicates[..index], ", ")
    {
      JoinSnoc(duplicates[..index], duplicates[index], ", ");
      assert duplicates[..index + 1] == duplicates[..index] + [duplicates[index]];
      remaining := remaining + ", " + duplicates[index];
      index := index + 1;
    }
    assert duplicates[..index] == duplicates;
  }

  /** All elements but those equal to `a`, in order (what deleteHost leaves). */
  function RemoveAll(xs: seq<string>, a: string): (r: seq<string>)
    ensures a !in r
    ensures multiset(r) == multiset(xs)[a := 0]
    ensures forall x :: x in r <==> x in xs && x != a
    ensures Distinct(xs) ==> Distinct(r)
  {
    if xs == [] then []
    else
      var init, x := xs[..|xs| - 1], xs[|xs| - 1];
      assert xs == init + [x];
      var r := RemoveAll(init, a);
      RemoveStep(init, r, x, a);
      if x == a then r else r + [x]
  }

  lemma DistinctSnoc(xs: seq<string>, x: string)
    ensures Distinct(xs + [x]) <==> Distinct(xs) && x !in xs
  {
    var ys := xs + [x];
    assert forall i :: 0 <= i < |xs| ==> ys[i] == xs[i];
    assert ys[|xs|] == x;
    if Distinct(ys) {
      forall i | 0 <= i < |xs| ensures xs[i] != x { assert ys[i] != ys[|xs|]; }
    }
  }

  /** One more element at the back of the list either is dropped or is kept at the back. */
  lemma RemoveStep(init: seq<string>, kept: seq<string>, x: string, a: string)
    requires multiset(kept) == multiset(init)[a := 0]
    requires forall y :: y in kept <==> y in init && y != a
    requires Distinct(init) ==> Distinct(kept)
    ensures var next := if x == a then kept else kept + [x];
      && multiset(next) == multiset(init + [x])[a := 0]
      && (forall y :: y in next <==> y in init + [x] && y != a)
      && (Distinct(init + [x]) ==> Distinct(next))
  {
    assert multiset(init + [x]) == multiset(init) + multiset{x};
    assert forall y :: y in init + [x] <==> y in init || y == x;
    DistinctSnoc(init, x);
    if x != a {
      DistinctSnoc(kept, x);
      assert forall y :: y in kept + [x] <==> y in kept || y == x;
      assert multiset(kept + [x]) == multiset(kept) + multiset{x};
    }
  }

  /** Removal keeps the order of what it keeps: it works on each part of a list separately. */
  lemma {:induction false} RemoveAllConcat(xs: seq<string>, ys: seq<string>, a: string)
    ensures RemoveAll(xs + ys, a) == RemoveAll(xs, a) + RemoveAll(ys, a)
    decreases |ys|
  {
    if ys == [] {
      assert xs + ys == xs;
    } else {
      var init, y := ys[..|ys| - 1], ys[|ys| - 1];
      assert ys == init + [y];
      assert xs + ys == (xs + init) + [y];
      RemoveAllConcat(xs, init, a);
    }
  }

  /** The page's address list, the parameters' ready flags and the address field. */
  class Form {
    var hosts: seq<string>
    var ready: map<string, bool>
    var field: string

    ghost predicate Valid()
      reads this
    {
      Distinct(hosts) && ready.Keys == PARAMETER_NAMES
    }

    /** setupParameters: a parameter starts ready exactly when its input has a default value. */
    constructor (withDefault: set<string>, field: string)
      ensures Valid() && hosts == [] && this.field == field
      ensures forall n :: n in PARAMETER_NAMES ==> ready[n] == (n in withDefault)
    {
      hosts := [];
      ready := map n | n in PARAMETER_NAMES :: n in withDefault;
      this.field := field;
    }

    /** hasHost: an entry with that name is on the page. */
    function HasHost(address: string): (r: bool)
      reads this
      ensures r <==> exists k :: 0 <= k < |hosts| && hosts[k] == address
    {
      address in hosts
    }

    /** addHost: append the address unless it is listed; report whether it was appended. */
    method AddHost(address: string) returns (added: bool)
      requires Valid()
      modifies this`hosts
      ensures Valid()
      ensures added <==> address !in old(hosts)
      ensures hosts == Add(old(hosts), address)
    {
      added := !HasHost(address);
      if added {
        hosts := hosts + [address];
      }
    }

    /** deleteHost: remove every entry with that name. */
    method DeleteHost(address: string)
      requires Valid()
      modifies this`hosts
      ensures Valid()
      ensures hosts == RemoveAll(old(hosts), address)
    {
      var entries := hosts;
      var kept := [];
      var i := 0;
      while i < |entries|
        invariant 0 <= i <= |entries|
        invariant kept == RemoveAll(entries[..i], address)
      {
        assert entries[..i + 1][..i] == entries[..i];
        if entries[i] != address {
          kept := kept + [entries[i]];
        }
        i := i + 1;
      }
      assert entries[..i] == entries;
      hosts := kept;
    }

    /** checkParameters: false as soon as some parameter's flag is false. */
    method CheckParameters() returns (ok: bool)
      requires Valid()
      ensures ok <==> forall n :: n in ready ==> ready[n]
    {
      var names := ready.Keys;
      while names != {}
        invariant names <= ready.Keys
        invariant forall n :: n in ready && n !in names ==> ready[n]
        decreases names
      {
        var name :| name in names;
        if !ready[name] {
          return false;
        }
        names := names - {name};
      }
      return true;
    }

    /** ready: set the flag of a known parameter. */
    method Ready(name: string)
      requires Valid()
      modifies this`ready
      ensures Valid()
      ensures ready == if name in old(ready) then old(ready)[name := true] else old(ready)
    {
      if name in ready {
        ready := ready[name := true];
      }
    }

    /** reject: clear the flag of a known parameter. */
    method Reject(name: string)
      requires Valid()
      modifies this`ready
      ensures Valid()
      ensures ready == if name in old(ready) then old(ready)[name := false] else old(ready)
    {
      if name in ready {
        ready := ready[name := false];
      }
    }

    /**
     * addHosts: addHost for each comma-separated piece; returns the pieces
     * that were not added, without repeats, joined by ", ", or "".
     */
    method AddHosts(addresses: string) returns (remaining: string)
      requires Valid()
      modifies this`hosts, this`ready
      ensures Valid()
      ensures hosts == AddAll(old(hosts), Split(addresses, ','))
      ensures remaining == Join(Dedup(Refused(old(hosts), Split(addresses, ','))), ", ")
      ensures ready == old(ready)
    {
      var pieces := if ',' in addresses then Split(addresses, ',') else [addresses];
      if ',' !in addresses {
        SplitNoSeparator(addresses, ',');
      }
      var duplicates := AddEach(pieces);
      if |duplicates| != 0 {
        remaining := JoinRemaining(duplicates);
        Reject("address");
        return remaining;
      }
      return "";
    }

    /** The loop of addHosts: add each piece, collecting the refused ones once each. */
    method AddEach(pieces: seq<string>) returns (duplicates: seq<string>)
      requires Valid()
      modifies this`hosts
      ensures Valid()
      ensures hosts == AddAll(old(hosts), pieces)
      ensures duplicates == Dedup(Refused(old(hosts), pieces))
    {
      ghost var h0 := hosts;
      duplicates := [];
      var i := 0;
      while i < |pieces|
        invariant 0 <= i <= |pieces|
        invariant Valid()
        invariant hosts == AddAll(h0, pieces[..i])
        invariant duplicates == Dedup(Refused(h0, pieces[..i]))
      {
        var address := pieces[i];
        ghost var before, refused := pieces[..i], Refused(h0, pieces[..i]);
        assert pieces[..i + 1] == before + [address];
        AddAllSnoc(h0, before, address);
        RefusedSnoc(h0, before, address);
        DedupSnoc(refused, address);
        var added := AddHost(address);
        if added {
          assert refused + [] == refused;
        }
        if !added && address !in duplicates {
          duplicates := duplicates + [address];
        }
        i := i + 1;
      }
      assert pieces[..i] == pieces;
    }

    /** enterCSV: put the CSV into the field, after the field's old entries when `keep`. */
    method EnterCSV(csv: string, keep: bool)
      modifies this`field
      ensures field == EnteredValue(old(field), csv, keep)
    {
      var input := StripSpaces(field);
      field := (if keep && |input| != 0 then input + "," else "") + csv;
    }
  }
}
