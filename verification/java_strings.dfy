/** The handful of `java.lang.String`, `Integer` and `Long` operations the
    rule-text parser relies on, written out with Java's edge cases:
    `trim`, `split` (which drops trailing empty pieces), `parseInt` and
    `parseLong` in radix 10, and the two fixed-width integer ranges. */
module JavaStrings {
  import opened Results

  /** Range of a Java `int`. */
  const IntMin: int := -0x8000_0000
  const IntMax: int := 0x7fff_ffff

  /** Range of a Java `long`; `LongMax` is `Long.MAX_VALUE`. */
  const LongMin: int := -0x8000_0000_0000_0000
  const LongMax: int := 0x7fff_ffff_ffff_ffff

  // ---------------------------------------------------------------------
  // trim
  // ---------------------------------------------------------------------

  /** `String.trim` removes every char whose code is at most U+0020. */
  predicate IsTrimmable(c: char) {
    c <= ' '
  }

  predicate AllTrimmable(s: string) {
    forall i :: 0 <= i < |s| ==> IsTrimmable(s[i])
  }

  /** True of a string that `trim` leaves alone. */
  predicate IsTrimmed(s: string) {
    s == [] || (!IsTrimmable(s[0]) && !IsTrimmable(s[|s| - 1]))
  }

  /** The first index at or after `i` whose char is not trimmable (or the
      length): `String.trim`'s forward scan. */
  function TrimLow(s: string, i: nat): (lo: nat)
    requires i <= |s|
    ensures i <= lo <= |s|
    ensures lo == |s| || !IsTrimmable(s[lo])
    decreases |s| - i
  {
    if i < |s| && IsTrimmable(s[i]) then TrimLow(s, i + 1) else i
  }

  /** Steps `hi` back over trimmable chars, never below `lo`:
      `String.trim`'s backward scan. */
  function TrimHigh(s: string, lo: nat, hi: nat): (r: nat)
    requires lo <= hi <= |s|
    ensures lo <= r <= hi
    ensures r == lo || !IsTrimmable(s[r - 1])
    decreases hi
  {
    if lo < hi && IsTrimmable(s[hi - 1]) then TrimHigh(s, lo, hi - 1) else hi
  }

  /** The forward scan passes over trimmable chars only. */
  lemma {:induction false} TrimLowSkips(s: string, i: nat)
    requires i <= |s|
    ensures forall k :: i <= k < TrimLow(s, i) ==> IsTrimmable(s[k])
    decreases |s| - i
  {
    if i < |s| && IsTrimmable(s[i]) {
      TrimLowSkips(s, i + 1);
    }
  }

  /** The backward scan passes over trimmable chars only. */
  lemma {:induction false} TrimHighSkips(s: string, lo: nat, hi: nat)
    requires lo <= hi <= |s|
    ensures forall k :: TrimHigh(s, lo, hi) <= k < hi ==> IsTrimmable(s[k])
    decreases hi
  {
    if lo < hi && IsTrimmable(s[hi - 1]) {
      TrimHighSkips(s, lo, hi - 1);
    }
  }

  /** `String.trim`: cuts every trimmable char from both ends. */
  function Trim(s: string): (r: string)
    ensures IsTrimmed(r)
    ensures |r| <= |s|
  {
    var lo := TrimLow(s, 0);
    var hi := TrimHigh(s, lo, |s|);
    s[lo..hi]
  }

  /** What `trim` keeps is an infix of the text, and everything it cuts
      away on either side is trimmable. */
  lemma TrimIsInfix(s: string)
    ensures var r := Trim(s);
            exists i :: 0 <= i <= |s| - |r| && r == s[i..i + |r|]
                        && AllTrimmable(s[..i]) && AllTrimmable(s[i + |r|..])
  {
    var lo := TrimLow(s, 0);
    var hi := TrimHigh(s, lo, |s|);
    var r := s[lo..hi];
    TrimLowSkips(s, 0);
    TrimHighSkips(s, lo, |s|);
    assert AllTrimmable(s[..lo]) by {
      forall k | 0 <= k < lo ensures IsTrimmable(s[..lo][k]) { assert s[..lo][k] == s[k]; }
    }
    assert AllTrimmable(s[hi..]) by {
      forall k | 0 <= k < |s| - hi ensures IsTrimmable(s[hi..][k]) { assert s[hi..][k] == s[hi + k]; }
    }
    assert r == s[lo..lo + |r|];
  }

  /** `trim` changes nothing on a string it has already trimmed. */
  lemma TrimIdempotent(s: string)
    ensures IsTrimmed(s) ==> Trim(s) == s
    ensures Trim(Trim(s)) == Trim(s)
  {
  }

  // ---------------------------------------------------------------------
  // split on a single char
  // ---------------------------------------------------------------------

  /** Position of the first occurrence of `c` in `s`. */
  function IndexOf(s: string, c: char): (i: nat)
    requires c in s
    ensures i < |s| && s[i] == c
  {
    if s[0] == c then 0 else 1 + IndexOf(s[1..], c)
  }

  /** The pieces between successive occurrences of `sep`, empty pieces
      included: the raw material of Java's `split`. */
  function Pieces(s: string, sep: char): (r: seq<string>)
    ensures |r| > 0
    decreases |s|
  {
    if sep in s then
      var i := IndexOf(s, sep);
      [s[..i]] + Pieces(s[i + 1..], sep)
    else
      [s]
  }

  /** Glues `pieces` back together with `sep` between neighbours. */
  function Join(pieces: seq<string>, sep: char): string
    requires |pieces| > 0
  {
    if |pieces| == 1 then pieces[0] else pieces[0] + [sep] + Join(pieces[1..], sep)
  }

  /** Cutting at every separator loses nothing: joining the pieces
      restores the text. */
  lemma {:induction false} JoinPieces(s: string, sep: char)
    ensures Join(Pieces(s, sep), sep) == s
    decreases |s|
  {
    if sep in s {
      var i := IndexOf(s, sep);
      JoinPieces(s[i + 1..], sep);
      assert s == s[..i] + [sep] + s[i + 1..];
    }
  }

  /** The first separator after a separator-free prefix is the one right
      after it. */
  lemma {:induction false} IndexOfAfter(a: string, rest: string, sep: char)
    requires sep !in a
    ensures sep in a + [sep] + rest
    ensures IndexOf(a + [sep] + rest, sep) == |a|
  {
    var s := a + [sep] + rest;
    assert s[|a|] == sep;
    if a != [] {
      assert s[0] == a[0];
      assert s[1..] == a[1..] + [sep] + rest;
      IndexOfAfter(a[1..], rest, sep);
    }
  }

  /** A separator-free first piece is cut off whole at the separator that
      follows it. */
  lemma PiecesAfter(a: string, rest: string, sep: char)
    requires sep !in a
    ensures Pieces(a + [sep] + rest, sep) == [a] + Pieces(rest, sep)
  {
    var s := a + [sep] + rest;
    IndexOfAfter(a, rest, sep);
    assert s[..|a|] == a;
    assert s[|a| + 1..] == rest;
  }

  /** No piece contains `sep`. */
  predicate SeparatorFree(ps: seq<string>, sep: char)
    decreases |ps|
  {
    ps == [] || (sep !in ps[0] && SeparatorFree(ps[1..], sep))
  }

  /** `SeparatorFree` says of the pieces one by one what it says of each. */
  lemma {:induction false} SeparatorFreeAll(ps: seq<string>, sep: char)
    requires forall k :: 0 <= k < |ps| ==> sep !in ps[k]
    ensures SeparatorFree(ps, sep)
    decreases |ps|
  {
    if ps != [] {
      forall k | 0 <= k < |ps| - 1
        ensures sep !in ps[1..][k]
      {
        assert ps[1..][k] == ps[k + 1];
      }
      SeparatorFreeAll(ps[1..], sep);
    }
  }

  /** `PiecesJoin`, by induction over the pieces. */
  lemma {:induction false} PiecesJoinFree(ps: seq<string>, sep: char)
    requires |ps| > 0 && SeparatorFree(ps, sep)
    ensures Pieces(Join(ps, sep), sep) == ps
    decreases |ps|
  {
    if |ps| > 1 {
      var rest := Join(ps[1..], sep);
      assert Join(ps, sep) == ps[0] + [sep] + rest;
      PiecesAfter(ps[0], rest, sep);
      PiecesJoinFree(ps[1..], sep);
      assert ps == [ps[0]] + ps[1..];
    }
  }

  /** Conversely, separator-free pieces are recovered from their join. */
  lemma PiecesJoin(ps: seq<string>, sep: char)
    requires |ps| > 0
    requires forall k :: 0 <= k < |ps| ==> sep !in ps[k]
    ensures Pieces(Join(ps, sep), sep) == ps
  {
    SeparatorFreeAll(ps, sep);
    PiecesJoinFree(ps, sep);
  }

  /** Removes the empty pieces at the end of `ps`, as Java's `split` does
      when called without a limit. */
  function DropTrailingEmpty(ps: seq<string>): (r: seq<string>)
  {
    if ps != [] && ps[|ps| - 1] == [] then DropTrailingEmpty(ps[..|ps| - 1]) else ps
  }

  /** What is kept is a prefix ending in a non-empty piece (or nothing),
      and everything dropped is empty. */
  lemma {:induction false} DropTrailingEmptySpec(ps: seq<string>)
    ensures var r := DropTrailingEmpty(ps);
            && |r| <= |ps| && r == ps[..|r|]
            && (forall k :: |r| <= k < |ps| ==> ps[k] == [])
            && (r == [] || r[|r| - 1] != [])
  {
    if ps != [] && ps[|ps| - 1] == [] {
      var init := ps[..|ps| - 1];
      DropTrailingEmptySpec(init);
      var r := DropTrailingEmpty(init);
      assert ps[..|r|] == init[..|r|];
      forall k | |r| <= k < |ps|
        ensures ps[k] == []
      {
        if k < |init| {
          assert init[k] == ps[k];
        }
      }
    } else {
      assert ps[..|ps|] == ps;
    }
  }

  /** `s.split(sep)` for a separator that is one plain char: a text
      without the separator is returned whole (even when empty); otherwise
      the pieces, less the empty ones at the end. */
  function JavaSplit(s: string, sep: char): (r: seq<string>)
  {
    if sep !in s then [s] else DropTrailingEmpty(Pieces(s, sep))
  }

  /** `IndexOf` finds the first occurrence. */
  lemma {:induction false} IndexOfFirst(s: string, c: char)
    requires c in s
    ensures c !in s[..IndexOf(s, c)]
  {
    if s[0] != c {
      IndexOfFirst(s[1..], c);
      assert s[..IndexOf(s, c)] == [s[0]] + s[1..][..IndexOf(s[1..], c)];
    }
  }

  /** No piece contains the separator. */
  lemma {:induction false} PieceAt(s: string, sep: char, k: nat)
    requires k < |Pieces(s, sep)|
    ensures sep !in Pieces(s, sep)[k]
    decreases |s|
  {
    if sep in s {
      var i := IndexOf(s, sep);
      var ps, rest := Pieces(s, sep), Pieces(s[i + 1..], sep);
      assert ps == [s[..i]] + rest;
      if k == 0 {
        IndexOfFirst(s, sep);
      } else {
        assert ps[k] == rest[k - 1];
        PieceAt(s[i + 1..], sep, k - 1);
      }
    }
  }

  /** The tokens `split` returns are the leading pieces of the text, in
      order, and none of them contains the separator. */
  lemma JavaSplitToken(s: string, sep: char, k: nat)
    requires k < |JavaSplit(s, sep)|
    ensures k < |Pieces(s, sep)| && JavaSplit(s, sep)[k] == Pieces(s, sep)[k]
    ensures sep !in JavaSplit(s, sep)[k]
  {
    if sep in s {
      DropTrailingEmptySpec(Pieces(s, sep));
    }
    PieceAt(s, sep, k);
  }

  /** Java's `split` drops trailing empty tokens, so `a:b:` yields the two
      tokens `a` and `b`, not three. */
  lemma TrailingSeparatorDropped(a: string, b: string, sep: char)
    requires sep !in a && sep !in b && b != []
    ensures JavaSplit(a + [sep] + b + [sep], sep) == [a, b]
  {
    var ps := [a, b, []];
    var s := a + [sep] + b + [sep];
    assert ps[1..] == [b, []] && ps[1..][1..] == [[]];
    assert Join(ps[1..], sep) == b + [sep];
    assert Join(ps, sep) == s;
    PiecesJoin(ps, sep);
    assert s[|a|] == sep;
    assert ps[..|ps| - 1] == [a, b];
    assert DropTrailingEmpty([a, b]) == [a, b];
  }

  /** Three separator-free tokens, the last non-empty, split back into
      exactly those three tokens. */
  lemma SplitThree(a: string, b: string, c: string, sep: char)
    requires sep !in a && sep !in b && sep !in c
    requires c != []
    ensures JavaSplit(a + [sep] + b + [sep] + c, sep) == [a, b, c]
  {
    var s := a + [sep] + b + [sep] + c;
    assert [a, b, c][1..] == [b, c];
    assert Join([b, c], sep) == b + [sep] + c;
    assert Join([a, b, c], sep) == s;
    PiecesJoin([a, b, c], sep);
    assert s[|a|] == sep;
  }

  // ---------------------------------------------------------------------
  // split into lines on the regular expression \r?\n
  // ---------------------------------------------------------------------

  /** Removes one `'\r'` at the end of `s`, if there is one. */
  function DropCarriageReturn(s: string): (r: string)
  {
    if s != [] && s[|s| - 1] == '\r' then s[..|s| - 1] else s
  }

  /** A match of `\r?\n` also swallows one `'\r'` before the newline, so
      every piece but the last loses a trailing `'\r'`. */
  function StripCarriageReturns(ps: seq<string>): (r: seq<string>)
    requires |ps| > 0
    ensures |r| == |ps|
  {
    if |ps| == 1 then ps else [DropCarriageReturn(ps[0])] + StripCarriageReturns(ps[1..])
  }

  /** Every piece but the last loses its closing `'\r'`; the last is kept
      as it is. */
  lemma {:induction false} StripCarriageReturnsAt(ps: seq<string>, k: nat)
    requires k < |ps|
    ensures k < |ps| - 1 ==> StripCarriageReturns(ps)[k] == DropCarriageReturn(ps[k])
    ensures k == |ps| - 1 ==> StripCarriageReturns(ps)[k] == ps[k]
  {
    if |ps| > 1 && k > 0 {
      StripCarriageReturnsAt(ps[1..], k - 1);
    }
  }

  /** `s.split("\\r?\\n")`: the lines of `s`, with trailing empty lines
      dropped; a text without any newline is a single line. */
  function SplitLines(s: string): (r: seq<string>)
    ensures '\n' !in s ==> r == [s]
  {
    if '\n' !in s then
      [s]
    else
      DropTrailingEmpty(StripCarriageReturns(Pieces(s, '\n')))
  }

  /** Lines without newlines or a closing `'\r'`, the last one non-empty,
      come back unchanged from joining them with `'\n'` and splitting. */
  lemma SplitJoinedLines(ls: seq<string>)
    requires |ls| > 0
    requires forall k :: 0 <= k < |ls| ==> '\n' !in ls[k]
    requires forall k :: 0 <= k < |ls| ==> DropCarriageReturn(ls[k]) == ls[k]
    requires |ls| == 1 || ls[|ls| - 1] != []
    ensures SplitLines(Join(ls, '\n')) == ls
  {
    PiecesJoin(ls, '\n');
    if |ls| > 1 {
      JoinHasSeparator(ls, '\n');
      NoCarriageReturns(ls);
    }
  }

  /** Two or more pieces joined contain the separator. */
  lemma JoinHasSeparator(ps: seq<string>, sep: char)
    requires |ps| > 1
    ensures sep in Join(ps, sep)
  {
    var s := Join(ps, sep);
    assert s == ps[0] + [sep] + Join(ps[1..], sep);
    assert s[|ps[0]|] == sep;
  }

  /** Pieces without a closing `'\r'` lose nothing to the line split. */
  lemma NoCarriageReturns(ps: seq<string>)
    requires |ps| > 0
    requires forall k :: 0 <= k < |ps| ==> DropCarriageReturn(ps[k]) == ps[k]
    ensures StripCarriageReturns(ps) == ps
  {
    if |ps| > 1 {
      NoCarriageReturns(ps[1..]);
      assert ps == [ps[0]] + ps[1..];
    }
  }

  // ---------------------------------------------------------------------
  // Integer.parseInt / Long.parseLong, radix 10
  // ---------------------------------------------------------------------

  predicate IsDigit(c: char) {
    '0' <= c <= '9'
  }

  predicate AllDigits(s: string) {
    forall i :: 0 <= i < |s| ==> IsDigit(s[i])
  }

  /** The number a string of decimal digits denotes. */
  function DigitsValue(ds: string): nat
    requires AllDigits(ds)
  {
    if ds == [] then 0 else 10 * DigitsValue(ds[..|ds| - 1]) + (ds[|ds| - 1] as int - '0' as int)
  }

  /** The digits after an optional leading `'-'` or `'+'`. */
  function Unsigned(s: string): string
    requires s != []
  {
    if s[0] == '-' || s[0] == '+' then s[1..] else s
  }

  /** `Integer.parseInt(s)` (with `[lo, hi]` the `int` range) or
      `Long.parseLong(s)` (the `long` range): an optional sign, then one or
      more digits, denoting a value inside the range; anything else is the
      `NumberFormatException`, here `None`. */
  function ParseDecimal(s: string, lo: int, hi: int): (r: Option<int>)
    ensures r.Some? ==> lo <= r.value <= hi
    ensures r.Some? ==> s != [] && Unsigned(s) != [] && AllDigits(Unsigned(s))
    ensures r.Some? && s[0] != '-' ==> r.value == DigitsValue(Unsigned(s))
    ensures r.Some? && s[0] == '-' ==> r.value == -(DigitsValue(Unsigned(s)) as int)
    ensures s == [] ==> r == None
  {
    if s == [] then None
    else
      var digits := Unsigned(s);
      if digits == [] || !AllDigits(digits) then None
      else
        var v := if s[0] == '-' then -(DigitsValue(digits) as int) else DigitsValue(digits);
        if lo <= v <= hi then Some(v) else None
  }

  /** The converse: every optional sign followed by one or more digits
      whose value lies in the range is accepted, leading zeros and a `'+'`
      included (`007`, `+5`, `-0`), not only the way Java prints it. */
  lemma ParseDecimalAccepts(s: string, lo: int, hi: int)
    ensures s != [] && Unsigned(s) != [] && AllDigits(Unsigned(s)) && s[0] != '-'
            && lo <= DigitsValue(Unsigned(s)) <= hi
            ==> ParseDecimal(s, lo, hi) == Some(DigitsValue(Unsigned(s)) as int)
    ensures s != [] && Unsigned(s) != [] && AllDigits(Unsigned(s)) && s[0] == '-'
            && lo <= -(DigitsValue(Unsigned(s)) as int) <= hi
            ==> ParseDecimal(s, lo, hi) == Some(-(DigitsValue(Unsigned(s)) as int))
  {
  }

  /** The shortest decimal digits of `n`. */
  function NatDigits(n: nat): (r: string)
    ensures r != [] && AllDigits(r)
    ensures DigitsValue(r) == n
  {
    var last := ['0' + (n % 10) as char];
    if n < 10 then last
    else
      var r := NatDigits(n / 10) + last;
      assert r[..|r| - 1] == NatDigits(n / 10);
      r
  }

  /** How Java prints an integer: `Integer.toString` / `Long.toString`. */
  function ShowDecimal(v: int): (r: string)
  {
    if v < 0 then "-" + NatDigits(-v) else NatDigits(v)
  }

  /** Printing a number in range and parsing it back yields the number. */
  lemma DecimalRoundTrip(v: int, lo: int, hi: int)
    requires lo <= v <= hi
    ensures ParseDecimal(ShowDecimal(v), lo, hi) == Some(v)
  {
    var s := ShowDecimal(v);
    if v < 0 {
      assert Unsigned(s) == NatDigits(-v);
    } else {
      assert IsDigit(s[0]);
      assert Unsigned(s) == NatDigits(v);
    }
  }

  /** A printed number has no surrounding blanks and no separators. */
  lemma ShowDecimalShape(v: int)
    ensures IsTrimmed(ShowDecimal(v)) && ShowDecimal(v) != []
    ensures forall c :: c in ShowDecimal(v) ==> c == '-' || IsDigit(c)
  {
    var s := ShowDecimal(v);
    if v < 0 {
      assert s == "-" + NatDigits(-v);
      assert s[|s| - 1] == NatDigits(-v)[|NatDigits(-v)| - 1];
    }
  }
}
