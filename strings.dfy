/**
 * String helpers standing in for the JavaScript built-ins the core uses:
 * `String.prototype.split` on one character, `Array.prototype.join`-style
 * concatenation, the regular-expression class `\s`, and the global whitespace replacement.
 */
module Strings {

  /** The characters of JavaScript's `\s` class (ECMAScript WhiteSpace and LineTerminator). */
  predicate IsSpace(c: char) {
    var n := c as int;
    (9 <= n <= 13) || n == 32 || n == 0xA0 || n == 0x1680 || (0x2000 <= n <= 0x200A)
    || n == 0x2028 || n == 0x2029 || n == 0x202F || n == 0x205F || n == 0x3000 || n == 0xFEFF
  }

  /** The class `[0-9]`. */
  predicate IsDigit(c: char) {
    '0' <= c <= '9'
  }

  predicate AllDigits(t: string) {
    forall i :: 0 <= i < |t| ==> IsDigit(t[i])
  }

  /** `s` ends with `suffix` (the shape of an end-anchored literal pattern). */
  predicate EndsWith(s: string, suffix: string) {
    |suffix| <= |s| && s[|s| - |suffix|..] == suffix
  }

  /** `s` holds `lit` starting at index `i`. */
  predicate StartsAt(s: string, i: nat, lit: string) {
    i + |lit| <= |s| && s[i..i + |lit|] == lit
  }

  /** The global whitespace replacement of web/index.js (pattern `\s` repeated, flag g): every whitespace character removed, the rest kept in order. */
  function StripSpaces(s: string): (r: string)
    ensures forall i :: 0 <= i < |r| ==> !IsSpace(r[i])
    ensures forall c {:trigger multiset(r)[c]} :: !IsSpace(c) ==> multiset(r)[c] == multiset(s)[c]
  {
    if s == [] then []
    else
      assert s == [s[0]] + s[1..];
      (if IsSpace(s[0]) then [] else [s[0]]) + StripSpaces(s[1..])
  }

  /** Stripping works piece by piece: the kept characters of `a` come before those of `b`, each in their order. */
  lemma {:induction false} StripSpacesConcat(a: string, b: string)
    ensures StripSpaces(a + b) == StripSpaces(a) + StripSpaces(b)
  {
    if a == [] {
      assert a + b == b;
    } else {
      var head := if IsSpace(a[0]) then [] else [a[0]];
      StripSpacesCons(a);
      StripSpacesCons(a + b);
      assert (a + b)[1..] == a[1..] + b;
      StripSpacesConcat(a[1..], b);
      assert StripSpaces(a + b) == head + (StripSpaces(a[1..]) + StripSpaces(b));
    }
  }

  lemma StripSpacesCons(s: string)
    requires s != []
    ensures StripSpaces(s) == (if IsSpace(s[0]) then [] else [s[0]]) + StripSpaces(s[1..])
  {
  }

  /** One character: removed when it is whitespace, kept otherwise. */
  lemma StripSpacesChar(c: char)
    ensures StripSpaces([c]) == if IsSpace(c) then [] else [c]
  {
    assert [c][1..] == [];
  }

  /** Stripping leaves a string without whitespace exactly as it was. */
  lemma StripSpacesIdentity(s: string)
    ensures StripSpaces(s) == s <==> forall i :: 0 <= i < |s| ==> !IsSpace(s[i])
  {
    if forall i :: 0 <= i < |s| ==> !IsSpace(s[i]) {
      StripNoSpaces(s);
    }
  }

  lemma {:induction false} StripNoSpaces(s: string)
    requires forall i :: 0 <= i < |s| ==> !IsSpace(s[i])
    ensures StripSpaces(s) == s
  {
    if s != [] {
      var t := s[1..];
      forall i | 0 <= i < |t| ensures !IsSpace(t[i]) { assert t[i] == s[i + 1]; }
      StripNoSpaces(t);
      assert !IsSpace(s[0]);
      assert StripSpaces(s) == [s[0]] + StripSpaces(t);
      assert [s[0]] + t == s;
    }
  }

  /**
   * `s.split(sep)` for a one-character separator: the pieces between separators,
   * empty ones included, so there is always one more piece than separators.
   */
  function Split(s: string, sep: char): (r: seq<string>)
    ensures r != []
    ensures forall i :: 0 <= i < |r| ==> sep !in r[i]
  {
    if s == [] then [""]
    else
      assert s == [s[0]] + s[1..];
      var rest := Split(s[1..], sep);
      if s[0] == sep then [""] + rest
      else [[s[0]] + rest[0]] + rest[1..]
  }

  /** There is one more piece than there are separators. */
  lemma {:induction false} SplitCount(s: string, sep: char)
    ensures |Split(s, sep)| == multiset(s)[sep] + 1
  {
    if s != [] {
      SplitCount(s[1..], sep);
      assert s == [s[0]] + s[1..];
      assert multiset(s) == multiset{s[0]} + multiset(s[1..]);
    }
  }

  /** The pieces of `xs` with `sep` between each two neighbours (`xs.join(sep)`). */
  function Join(xs: seq<string>, sep: string): string {
    if |xs| == 0 then ""
    else if |xs| == 1 then xs[0]
    else xs[0] + sep + Join(xs[1..], sep)
  }

  /** Appending one more piece to a join puts one more separator in front of it. */
  lemma {:induction false} JoinSnoc(xs: seq<string>, x: string, sep: string)
    requires xs != []
    ensures Join(xs + [x], sep) == Join(xs, sep) + sep + x
  {
    if |xs| == 1 {
      assert xs + [x] == [xs[0], x];
    } else {
      assert (xs + [x])[1..] == xs[1..] + [x];
      JoinSnoc(xs[1..], x, sep);
    }
  }

  /** A piece without the separator splits to itself. */
  lemma {:induction false} SplitNoSeparator(s: string, sep: char)
    requires sep !in s
    ensures Split(s, sep) == [s]
  {
    if s != [] {
      assert sep !in s[1..];
      SplitNoSeparator(s[1..], sep);
      assert s[0] != sep;
      assert [s[0]] + s[1..] == s;
    }
  }

  /** A separator after a piece without one ends that piece. */
  lemma {:induction false} SplitAfterPiece(a: string, sep: char, b: string)
    requires sep !in a
    ensures Split(a + [sep] + b, sep) == [a] + Split(b, sep)
  {
    if a == [] {
      assert a + [sep] + b == [sep] + b;
      assert ([sep] + b)[1..] == b;
    } else {
      assert (a + [sep] + b)[1..] == a[1..] + [sep] + b;
      assert sep !in a[1..];
      SplitAfterPiece(a[1..], sep, b);
      assert [a[0]] + a[1..] == a;
    }
  }

  /** Two separator-free pieces with one separator between them split apart. */
  lemma SplitPair(a: string, sep: char, b: string)
    requires sep !in a && sep !in b
    ensures Split(a + [sep] + b, sep) == [a, b]
  {
    SplitAfterPiece(a, sep, b);
    SplitNoSeparator(b, sep);
  }

  /** Splitting a join of separator-free pieces gives the pieces back. */
  lemma {:induction false} SplitJoin(xs: seq<string>, sep: char)
    requires xs != []
    requires forall i :: 0 <= i < |xs| ==> sep !in xs[i]
    ensures Split(Join(xs, [sep]), sep) == xs
  {
    if |xs| == 1 {
      SplitNoSeparator(xs[0], sep);
    } else {
      SplitJoin(xs[1..], sep);
      SplitAfterPiece(xs[0], sep, Join(xs[1..], [sep]));
      assert xs[0] + [sep] + Join(xs[1..], [sep]) == Join(xs, [sep]);
      assert [xs[0]] + xs[1..] == xs;
    }
  }

  /** Joining the pieces of a split with the separator gives the string back. */
  lemma {:induction false} JoinSplit(s: string, sep: char)
    ensures Join(Split(s, sep), [sep]) == s
  {
    if s != [] {
      var c, t := s[0], s[1..];
      assert s == [c] + t;
      SplitConsStep(c, t, sep);
      JoinSplit(t, sep);
      JoinPrepend(c, sep, Split(t, sep));
    }
  }

  lemma JoinPrepend(c: char, sep: char, xs: seq<string>)
    requires xs != []
    ensures Join(Prepend(c, sep, xs), [sep]) == [c] + Join(xs, [sep])
  {
    if c == sep {
      assert ([""] + xs)[1..] == xs;
    } else {
      JoinExtendHead([c], xs, [sep]);
    }
  }

  lemma JoinExtendHead(a: string, xs: seq<string>, sep: string)
    requires xs != []
    ensures Join([a + xs[0]] + xs[1..], sep) == a + Join(xs, sep)
  {
    if |xs| > 1 {
      assert ([a + xs[0]] + xs[1..])[1..] == xs[1..];
    }
  }

  /** Splitting `a + sep + b` splits `a` and `b` separately. */
  lemma {:induction false} SplitConcat(a: string, sep: char, b: string)
    ensures Split(a + [sep] + b, sep) == Split(a, sep) + Split(b, sep)
  {
    if a == [] {
      assert a + [sep] + b == [sep] + b;
      assert ([sep] + b)[1..] == b;
    } else {
      var t := a[1..] + [sep] + b;
      assert [a[0]] + t == a + [sep] + b;
      assert [a[0]] + a[1..] == a;
      SplitConcat(a[1..], sep, b);
      SplitConsStep(a[0], t, sep);
      SplitConsStep(a[0], a[1..], sep);
      PrependAppend(a[0], sep, Split(a[1..], sep), Split(b, sep));
    }
  }

  /** The pieces after one more leading character `c`, given the pieces `xs` of the rest. */
  function Prepend(c: char, sep: char, xs: seq<string>): seq<string>
    requires xs != []
  {
    if c == sep then [""] + xs else [[c] + xs[0]] + xs[1..]
  }

  lemma PrependAppend(c: char, sep: char, xs: seq<string>, ys: seq<string>)
    requires xs != []
    ensures Prepend(c, sep, xs + ys) == Prepend(c, sep, xs) + ys
  {
    if c != sep {
      assert (xs + ys)[1..] == xs[1..] + ys;
    }
  }

  /** A leading character other than the separator starts the first piece. */
  lemma SplitHead(c: char, t: string, sep: char)
    requires c != sep
    ensures Split([c] + t, sep)[0] == [c] + Split(t, sep)[0]
  {
    SplitConsStep(c, t, sep);
  }

  /** How one more leading character changes a split. */
  lemma SplitConsStep(c: char, t: string, sep: char)
    ensures Split([c] + t, sep) == Prepend(c, sep, Split(t, sep))
  {
    assert ([c] + t)[1..] == t;
  }

  /** Each piece's characters occur in the join. */
  lemma {:induction false} JoinHasPiece(xs: seq<string>, sep: string, k: nat)
    requires k < |xs|
    ensures forall c :: c in xs[k] ==> c in Join(xs, sep)
  {
    if |xs| > 1 && k > 0 {
      JoinHasPiece(xs[1..], sep, k - 1);
    }
  }

  /** A character in no piece and not in the separator is not in the join. */
  lemma {:induction false} JoinAvoids(xs: seq<string>, sep: string, c: char)
    requires c !in sep
    requires forall k :: 0 <= k < |xs| ==> c !in xs[k]
    ensures c !in Join(xs, sep)
  {
    if |xs| > 1 {
      JoinAvoids(xs[1..], sep, c);
    }
  }

  /** A join begins with its first piece. */
  lemma JoinPrefix(xs: seq<string>, sep: string)
    requires xs != []
    ensures |xs[0]| <= |Join(xs, sep)| && Join(xs, sep)[..|xs[0]|] == xs[0]
  {
  }

  /** A join ends with its last piece. */
  lemma JoinSuffix(xs: seq<string>, sep: string)
    requires xs != []
    ensures EndsWith(Join(xs, sep), xs[|xs| - 1])
  {
    if |xs| > 1 {
      var init := xs[..|xs| - 1];
      assert xs == init + [xs[|xs| - 1]];
      JoinSnoc(init, xs[|xs| - 1], sep);
    }
  }
}
