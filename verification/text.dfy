/**
 * String helpers the query compiler relies on: decimal rendering of naturals
 * (Python's `f"{n}"` on a non-negative int) and its parser, `str.join`,
 * first-occurrence search, character counting and extraction of the
 * double-quoted names of a SQL text.
 */
module Text {
  import opened Wrappers

  predicate IsDigit(c: char) {
    '0' <= c <= '9'
  }

  predicate AllDigits(s: string) {
    forall i :: 0 <= i < |s| ==> IsDigit(s[i])
  }

  function DigitValue(c: char): (d: nat)
    requires IsDigit(c)
    ensures d < 10
  {
    c as int - '0' as int
  }

  function DigitChar(d: nat): (c: char)
    requires d < 10
    ensures IsDigit(c) && DigitValue(c) == d
  {
    ('0' as int + d) as char
  }

  /** A decimal numeral as Python's `str` writes one: digits only, no leading zero unless the numeral is `0`. */
  predicate Canonical(s: string) {
    |s| > 0 && AllDigits(s) && (s[0] == '0' ==> |s| == 1)
  }

  /** Decimal representation without sign or leading zeros. */
  function NatToString(n: nat): (s: string)
    ensures Canonical(s)
    ensures n < 10 <==> |s| == 1
    ensures s[0] == '0' ==> n == 0
    decreases n
  {
    if n < 10 then [DigitChar(n)] else NatToString(n / 10) + [DigitChar(n % 10)]
  }

  /** The number a string of decimal digits denotes (most significant first). */
  function DigitsValue(s: string): nat
    requires AllDigits(s)
  {
    if |s| == 0 then 0 else DigitsValue(s[..|s| - 1]) * 10 + DigitValue(s[|s| - 1])
  }

  /** Parses a canonical decimal numeral; anything else, leading zeros included, is rejected. */
  function ParseNat(s: string): (r: Option<nat>)
    ensures r.Some? <==> Canonical(s)
  {
    if Canonical(s) then Some(DigitsValue(s)) else None
  }

  lemma {:induction false} DigitsValueOfNatToString(n: nat)
    ensures DigitsValue(NatToString(n)) == n
    decreases n
  {
    if n >= 10 {
      var s := NatToString(n);
      assert s[..|s| - 1] == NatToString(n / 10);
      DigitsValueOfNatToString(n / 10);
    }
  }

  /** Rendering a natural and parsing it back yields the same natural. */
  lemma NatToStringRoundTrip(n: nat)
    ensures ParseNat(NatToString(n)) == Some(n)
  {
    DigitsValueOfNatToString(n);
  }

  /** Every canonical numeral is the rendering of the natural it denotes: rendering is onto the canonical numerals. */
  lemma {:induction false} ParseNatRendered(s: string)
    requires Canonical(s)
    ensures NatToString(DigitsValue(s)) == s
    decreases |s|
  {
    var d := DigitValue(s[|s| - 1]);
    if |s| == 1 {
      assert DigitChar(d) == s[0];
    } else {
      var front := s[..|s| - 1];
      assert front[0] == s[0];
      ParseNatRendered(front);
      var v := DigitsValue(front);
      assert v != 0;
      assert DigitChar(d) == s[|s| - 1];
      assert NatToString(v * 10 + d) == NatToString(v) + [DigitChar(d)];
      assert s == front + [s[|s| - 1]];
    }
  }

  /** Distinct naturals render to distinct strings. */
  lemma NatToStringInjective(m: nat, n: nat)
    ensures NatToString(m) == NatToString(n) ==> m == n
  {
    NatToStringRoundTrip(m);
    NatToStringRoundTrip(n);
  }

  /** Length of the longest all-digit prefix of `s`. */
  function DigitRun(s: string): (n: nat)
    ensures n <= |s| && AllDigits(s[..n])
    ensures n < |s| ==> !IsDigit(s[n])
  {
    if |s| == 0 || !IsDigit(s[0]) then 0
    else
      var k := DigitRun(s[1..]);
      assert s[..k + 1] == [s[0]] + s[1..][..k];
      k + 1
  }

  /** Reads the natural written at the start of `s`, returning it and the text after its digits. */
  function ReadNat(s: string): Option<(nat, string)>
  {
    var k := DigitRun(s);
    match ParseNat(s[..k])
    case None => None
    case Some(n) => Some((n, s[k..]))
  }

  lemma {:induction false} DigitRunOfDigits(d: string, t: string)
    requires AllDigits(d)
    requires |t| == 0 || !IsDigit(t[0])
    ensures DigitRun(d + t) == |d|
  {
    if |d| > 0 {
      assert (d + t)[1..] == d[1..] + t;
      DigitRunOfDigits(d[1..], t);
    } else {
      assert d + t == t;
    }
  }

  /** A rendered natural followed by a non-digit reads back as that natural and what follows it. */
  lemma ReadNatOf(n: nat, t: string)
    requires |t| == 0 || !IsDigit(t[0])
    ensures ReadNat(NatToString(n) + t) == Some((n, t))
  {
    var d := NatToString(n);
    DigitRunOfDigits(d, t);
    assert (d + t)[..|d|] == d;
    assert (d + t)[|d|..] == t;
    NatToStringRoundTrip(n);
  }

  /** The text after `p` when `s` starts with `p`. */
  function AfterPrefix(s: string, p: string): (r: Option<string>)
    ensures r.Some? ==> s == p + r.value
    ensures r.None? ==> !(p <= s)
  {
    if p <= s then
      assert s == s[..|p|] + s[|p|..];
      Some(s[|p|..])
    else None
  }

  lemma AfterPrefixOf(p: string, s: string)
    ensures AfterPrefix(p + s, p) == Some(s)
  {
    assert p <= p + s;
  }

  /** Python's `sep.join(parts)`. */
  function Join(parts: seq<string>, sep: string): string
  {
    if |parts| == 0 then ""
    else if |parts| == 1 then parts[0]
    else parts[0] + sep + Join(parts[1..], sep)
  }

  lemma JoinCons(parts: seq<string>, sep: string)
    requires |parts| > 1
    ensures Join(parts, sep) == parts[0] + (sep + Join(parts[1..], sep))
  {
  }

  /** Joining strings that avoid `c` with a separator that avoids `c` avoids `c`. */
  lemma {:induction false} JoinAvoids(parts: seq<string>, sep: string, c: char)
    requires c !in sep
    requires forall i :: 0 <= i < |parts| ==> c !in parts[i]
    ensures c !in Join(parts, sep)
  {
    if |parts| > 1 {
      JoinAvoids(parts[1..], sep, c);
    }
  }

  /** A join of non-empty parts is empty exactly when there are no parts. */
  lemma JoinEmpty(parts: seq<string>, sep: string)
    requires forall i :: 0 <= i < |parts| ==> |parts[i]| > 0
    ensures Join(parts, sep) == "" <==> |parts| == 0
  {
    if |parts| > 1 {
      assert |Join(parts, sep)| >= |parts[0]|;
    }
  }

  /** Number of occurrences of `c` in `s`. */
  function Occurrences(s: string, c: char): nat
  {
    if |s| == 0 then 0 else (if s[0] == c then 1 else 0) + Occurrences(s[1..], c)
  }

  lemma {:induction false} OccurrencesConcat(a: string, b: string, c: char)
    ensures Occurrences(a + b, c) == Occurrences(a, c) + Occurrences(b, c)
  {
    if |a| == 0 {
      assert a + b == b;
    } else {
      assert (a + b)[1..] == a[1..] + b;
      OccurrencesConcat(a[1..], b, c);
    }
  }

  lemma {:induction false} OccurrencesAbsent(s: string, c: char)
    requires c !in s
    ensures Occurrences(s, c) == 0
  {
    if |s| > 0 {
      assert c !in s[1..];
      OccurrencesAbsent(s[1..], c);
    }
  }

  lemma OccurrencesConcat4(a: string, b: string, c: string, d: string, x: char)
    ensures Occurrences(a + b + c + d, x) == Occurrences(a, x) + Occurrences(b, x) + Occurrences(c, x) + Occurrences(d, x)
  {
    OccurrencesConcat(a, b, x);
    OccurrencesConcat(a + b, c, x);
    OccurrencesConcat(a + b + c, d, x);
  }

  /** In `a + b + c + d + e` with `x` absent from `a`, `c` and `e`, only `b` and `d` count. */
  lemma OccurrencesFramed(a: string, b: string, c: string, d: string, e: string, x: char)
    requires x !in a && x !in c && x !in e
    ensures Occurrences(a + b + c + d + e, x) == Occurrences(b, x) + Occurrences(d, x)
  {
    OccurrencesConcat4(a, b, c, d, x);
    OccurrencesConcat(a + b + c + d, e, x);
    OccurrencesAbsent(a, x);
    OccurrencesAbsent(c, x);
    OccurrencesAbsent(e, x);
  }

  /** `a x b x` with `a` and `b` free of `x` and `y` has two `x` and no `y`. */
  lemma TwoMarks(a: string, b: string, x: char, y: char)
    requires x !in a && x !in b && y !in a && y !in b && x != y
    ensures Occurrences(a + [x] + b + [x], x) == 2
    ensures y !in a + [x] + b + [x]
  {
    OccurrencesConcat4(a, [x], b, [x], x);
    OccurrencesAbsent(a, x);
    OccurrencesAbsent(b, x);
    OccurrencesSingle(x);
  }

  lemma OccurrencesSingle(c: char)
    ensures Occurrences([c], c) == 1
  {
  }

  /** Position of the first `c` in `s`, if any. */
  function IndexOf(s: string, c: char): (r: Option<nat>)
    ensures r.Some? ==> r.value < |s| && s[r.value] == c && c !in s[..r.value]
    ensures r.None? <==> c !in s
  {
    if |s| == 0 then None
    else if s[0] == c then Some(0)
    else match IndexOf(s[1..], c)
      case None => None
      case Some(i) =>
        assert s[..i + 1] == [s[0]] + s[1..][..i];
        Some(i + 1)
  }

  /** The first `c` of `s` is at `k` when `s[k]` is `c` and nothing before it is. */
  lemma IndexOfUnique(s: string, c: char, k: nat)
    requires k < |s| && s[k] == c && c !in s[..k]
    ensures IndexOf(s, c) == Some(k)
  {
    assert s[k] in s;
  }

  /** The first `c` of `a + [c] + b` is the one right after `a` when `a` avoids `c`. */
  lemma IndexOfAfterPrefix(a: string, c: char, b: string)
    requires c !in a
    ensures IndexOf(a + [c] + b, c) == Some(|a|)
  {
    var s := a + [c] + b;
    assert s[..|a|] == a;
    IndexOfUnique(s, c, |a|);
  }

  /**
   * Splits `s` at its first two double quotes into the text before the
   * first, the text between them and the text after the second.
   */
  function SplitQuoted(s: string): (r: Option<(string, string, string)>)
    ensures r.Some? ==> |r.value.2| < |s|
    ensures r.Some? ==> s == r.value.0 + ['"'] + r.value.1 + ['"'] + r.value.2
    ensures r.Some? ==> '"' !in r.value.0 && '"' !in r.value.1
  {
    match IndexOf(s, '"')
    case None => None
    case Some(i) =>
      var after := s[i + 1..];
      match IndexOf(after, '"')
      case None => None
      case Some(j) =>
        SplitTwice(s, i, j);
        Some((s[..i], after[..j], after[j + 1..]))
  }

  lemma SplitTwice(s: string, i: nat, j: nat)
    requires i < |s| && j < |s[i + 1..]|
    ensures s == s[..i] + [s[i]] + s[i + 1..][..j] + [s[i + 1..][j]] + s[i + 1..][j + 1..]
  {
    var after := s[i + 1..];
    assert after == after[..j] + [after[j]] + after[j + 1..];
    assert s == s[..i] + [s[i]] + after;
  }

  /** Text around two quotes, quote-free before the second, splits back into its pieces. */
  lemma SplitQuotedOf(a: string, b: string, c: string)
    requires '"' !in a && '"' !in b
    ensures SplitQuoted(a + ['"'] + b + ['"'] + c) == Some((a, b, c))
  {
    var s := a + ['"'] + b + ['"'] + c;
    IndexOfAfterPrefix(a, '"', b + ['"'] + c);
    assert s == a + ['"'] + (b + ['"'] + c);
    assert s[..|a|] == a;
    var after := s[|a| + 1..];
    assert after == b + ['"'] + c;
    IndexOfAfterPrefix(b, '"', c);
    assert after[..|b|] == b;
    assert after[|b| + 1..] == c;
  }

  /**
   * The names enclosed in double quotes, left to right: the text between the
   * first and second `"`, then between the third and fourth, and so on. An
   * unmatched final quote contributes nothing.
   */
  function QuotedNames(s: string): seq<string>
    decreases |s|
  {
    if |s| == 0 then []
    else if s[0] == '"' then NameThenRest(s[1..], "")
    else QuotedNames(s[1..])
  }

  /** Inside a quote: `acc` holds the name so far; the next `"` closes it. */
  function NameThenRest(s: string, acc: string): seq<string>
    decreases |s|
  {
    if |s| == 0 then []
    else if s[0] == '"' then [acc] + QuotedNames(s[1..])
    else NameThenRest(s[1..], acc + [s[0]])
  }

  /** A quote-free prefix contributes no names. */
  lemma {:induction false} QuotedNamesSkip(a: string, s: string)
    requires '"' !in a
    ensures QuotedNames(a + s) == QuotedNames(s)
  {
    if |a| == 0 {
      assert a + s == s;
    } else {
      assert (a + s)[0] == a[0];
      assert (a + s)[1..] == a[1..] + s;
      QuotedNamesSkip(a[1..], s);
    }
  }

  /** Inside a quote, a quote-free `name` up to the closing `"` is collected whole. */
  lemma {:induction false} NameThenRestClose(name: string, acc: string, rest: string)
    requires '"' !in name
    ensures NameThenRest(name + ['"'] + rest, acc) == [acc + name] + QuotedNames(rest)
  {
    var s := name + ['"'] + rest;
    if |name| == 0 {
      assert s == ['"'] + rest;
      assert acc + name == acc;
    } else {
      assert s[0] == name[0];
      assert s[1..] == name[1..] + ['"'] + rest;
      NameThenRestClose(name[1..], acc + [name[0]], rest);
      assert acc + [name[0]] + name[1..] == acc + name;
    }
  }

  /** `a "name" rest` with `a` and `name` quote-free yields `name` followed by the names of `rest`. */
  lemma QuotedNamesCons(a: string, name: string, rest: string)
    requires '"' !in a && '"' !in name
    ensures QuotedNames(a + ['"'] + name + ['"'] + rest) == [name] + QuotedNames(rest)
  {
    var inner := name + ['"'] + rest;
    assert a + ['"'] + name + ['"'] + rest == a + (['"'] + inner);
    QuotedNamesSkip(a, ['"'] + inner);
    assert (['"'] + inner)[1..] == inner;
    NameThenRestClose(name, "", rest);
    assert "" + name == name;
  }

  /** With a quote-free `a` in front and a quote-free `c`, `d`, `e` behind, the names of `a + b + c + d + e` are those of `b` followed by the rest. */
  lemma QuotedNamesFramed(a: string, b: string, c: string, d: string, e: string)
    requires '"' !in a
    ensures QuotedNames(a + b + c + d + e) == QuotedNames(b + (c + d + e))
  {
    assert a + b + c + d + e == a + (b + (c + d + e));
    QuotedNamesSkip(a, b + (c + d + e));
  }

  /** `a + b + c + d + e` starts with `a` and ends with `e`. */
  lemma Bracketed(a: string, b: string, c: string, d: string, e: string)
    ensures a <= a + b + c + d + e
    ensures |e| <= |a + b + c + d + e|
    ensures (a + b + c + d + e)[|a + b + c + d + e| - |e|..] == e
  {
    var s := a + b + c + d + e;
    assert s == (a + b + c + d) + e;
    assert s[..|a|] == a;
  }

  lemma ConsAppend<T>(xs: seq<T>, q: seq<T>)
    requires |xs| > 0
    ensures [xs[0]] + (xs[1..] + q) == xs + q
  {
  }

  lemma SliceCons<T>(s: seq<T>, k: nat)
    requires k < |s|
    ensures s[k..] == [s[k]] + s[k + 1..]
    ensures ([s[k]] + s[k + 1..])[0] == s[k] && ([s[k]] + s[k + 1..])[1..] == s[k + 1..]
  {
  }

  lemma SliceLast<T>(s: seq<T>, k: nat)
    requires k == |s| - 1
    ensures s[k..] == [s[k]]
  {
  }

  /** `part` is `prefix "name"`, with neither `prefix` nor `name` holding a quote. */
  predicate Encloses(part: string, prefix: string, name: string) {
    part == prefix + ['"'] + name + ['"'] && '"' !in prefix && '"' !in name
  }

  /**
   * Joining parts of the form `prefix "name"` (prefixes, names and
   * separator all quote-free) yields exactly the names, in order, followed
   * by the names of whatever text comes after.
   */
  lemma {:induction false} QuotedNamesJoin(parts: seq<string>, prefixes: seq<string>, names: seq<string>, sep: string, tail: string)
    requires |parts| == |prefixes| == |names|
    requires forall i :: 0 <= i < |parts| ==> Encloses(parts[i], prefixes[i], names[i])
    requires '"' !in sep
    ensures QuotedNames(Join(parts, sep) + tail) == names + QuotedNames(tail)
  {
    if |parts| == 0 {
      assert Join(parts, sep) + tail == tail;
    } else if |parts| == 1 {
      assert Encloses(parts[0], prefixes[0], names[0]);
      assert Join(parts, sep) + tail == prefixes[0] + ['"'] + names[0] + ['"'] + tail;
      QuotedNamesCons(prefixes[0], names[0], tail);
      assert names == [names[0]];
    } else {
      var more := Join(parts[1..], sep);
      assert Join(parts, sep) + tail == parts[0] + sep + (more + tail);
      assert Encloses(parts[0], prefixes[0], names[0]);
      QuotedNamesSeparated(parts[0], prefixes[0], names[0], sep, more + tail);
      QuotedNamesJoin(parts[1..], prefixes[1..], names[1..], sep, tail);
      ConsAppend(names, QuotedNames(tail));
    }
  }

  /** One quoted part, a quote-free separator, then anything. */
  lemma QuotedNamesSeparated(part: string, prefix: string, name: string, sep: string, rest: string)
    requires part == prefix + ['"'] + name + ['"']
    requires '"' !in prefix && '"' !in name && '"' !in sep
    ensures QuotedNames(part + sep + rest) == [name] + QuotedNames(rest)
  {
    assert part + sep + rest == prefix + ['"'] + name + ['"'] + (sep + rest);
    QuotedNamesCons(prefix, name, sep + rest);
    QuotedNamesSkip(sep, rest);
  }
}
