/**
 * The pieces of java.lang behaviour the server depends on, stated on
 * Dafny values: fixed-width integers with two's-complement wrap-around,
 * `String.trim`, `String.split(" ")`, `String.split("\\s+")`,
 * `Integer.parseInt` and `Integer.toString` / `Long.toString`.
 */
module JavaLang {

  datatype Option<+T> = None | Some(value: T)

  /** A Java byte as read from a file, seen as its unsigned value. */
  type byte = x: int | 0 <= x < 256

  const IntMin: int := -0x8000_0000
  const IntMax: int := 0x7FFF_FFFF
  const LongMin: int := -0x8000_0000_0000_0000
  const LongMax: int := 0x7FFF_FFFF_FFFF_FFFF

  type int32 = x: int | -0x8000_0000 <= x <= 0x7FFF_FFFF
  type int64 = x: int | -0x8000_0000_0000_0000 <= x <= 0x7FFF_FFFF_FFFF_FFFF

  // ---------------------------------------------------------------------
  // Fixed-width arithmetic
  // ---------------------------------------------------------------------

  /** `x++` on a Java `int`. */
  function Inc32(x: int32): int32 {
    if x == IntMax then IntMin else x + 1
  }

  /** `x--` on a Java `int`. */
  function Dec32(x: int32): int32 {
    if x == IntMin then IntMax else x - 1
  }

  /** One increment followed by one decrement restores any counter value,
      the wrap-around at the ends of the range included. */
  lemma IncDecBalance(x: int32)
    ensures Dec32(Inc32(x)) == x
    ensures Inc32(Dec32(x)) == x
  {
  }

  /** Reduction of an unbounded integer to a Java `long` (two's complement). */
  function Wrap64(x: int): (r: int64)
    ensures (r - x) % 0x1_0000_0000_0000_0000 == 0
    ensures LongMin <= x <= LongMax ==> r == x
  {
    var m := (x - LongMin) % 0x1_0000_0000_0000_0000;
    assert x - LongMin == (x - LongMin) / 0x1_0000_0000_0000_0000 * 0x1_0000_0000_0000_0000 + m;
    m + LongMin
  }

  /** Wrapping an intermediate sum does not change the final wrapped sum:
      a running `long` accumulator computes the wrapped total. */
  lemma Wrap64Add(a: int, b: int)
    ensures Wrap64(Wrap64(a) + b) == Wrap64(a + b)
  {
    var M := 0x1_0000_0000_0000_0000;
    var w := Wrap64(a);
    var k := (w - a) / M;
    assert w == a + k * M;
    var x, y := Wrap64(w + b), Wrap64(a + b);
    assert (x - (a + b)) % M == 0 && (y - (a + b)) % M == 0;
    var i, j := (x - (a + b)) / M, (y - (a + b)) / M;
    assert x == a + b + i * M && y == a + b + j * M;
    assert -M < x - y < M;
    assert x - y == (i - j) * M;
  }

  // ---------------------------------------------------------------------
  // String.trim
  // ---------------------------------------------------------------------

  /** `String.trim` removes every code point at or below U+0020 at both ends. */
  predicate IsTrimmed(c: char) {
    c <= ' '
  }

  function TrimStart(s: string): (r: string)
    ensures |r| <= |s| && r == s[|s| - |r|..]
    ensures forall k :: 0 <= k < |s| - |r| ==> IsTrimmed(s[k])
    ensures r == [] || !IsTrimmed(r[0])
  {
    if |s| > 0 && IsTrimmed(s[0]) then TrimStart(s[1..]) else s
  }

  function TrimEnd(s: string): (r: string)
    ensures |r| <= |s| && r == s[..|r|]
    ensures forall k :: |r| <= k < |s| ==> IsTrimmed(s[k])
    ensures r == [] || !IsTrimmed(r[|r| - 1])
  {
    if |s| > 0 && IsTrimmed(s[|s| - 1]) then TrimEnd(s[..|s| - 1]) else s
  }

  /** `String.trim`: the longest infix whose first and last characters are
      above U+0020, everything around it being at or below U+0020. */
  function Trim(s: string): (r: string)
    ensures |r| <= |s|
    ensures r == [] || (!IsTrimmed(r[0]) && !IsTrimmed(r[|r| - 1]))
    ensures exists a :: Around(s, a, r)
  {
    var t := TrimStart(s);
    assert Around(s, |s| - |t|, TrimEnd(t));
    TrimEnd(t)
  }

  /** `r` is the infix of `s` starting at `a`, and every character of `s`
      outside it is at or below U+0020. */
  predicate Around(s: string, a: nat, r: string) {
    && a + |r| <= |s| && r == s[a..a + |r|]
    && (forall k :: 0 <= k < a ==> IsTrimmed(s[k]))
    && (forall k :: a + |r| <= k < |s| ==> IsTrimmed(s[k]))
  }

  /** `trim()` yields the empty string exactly when every character is at
      or below U+0020. */
  lemma TrimBlank(s: string)
    ensures Trim(s) == [] <==> forall k :: 0 <= k < |s| ==> IsTrimmed(s[k])
  {
    var t := TrimStart(s);
    if TrimEnd(t) == [] {
      assert t == [];
    }
  }

  // ---------------------------------------------------------------------
  // String.split(" ")
  // ---------------------------------------------------------------------

  /** The pieces of `s` between successive occurrences of `sep`, empty
      pieces and the trailing piece included. */
  function Pieces(s: string, sep: char): (r: seq<string>)
    ensures |r| >= 1
    decreases |s|
  {
    if s == [] then [[]]
    else
      var rest := Pieces(s[1..], sep);
      if s[0] == sep then [[]] + rest else [[s[0]] + rest[0]] + rest[1..]
  }

  /** The inverse of `Pieces`: the pieces glued back with the separator. */
  function Join(parts: seq<string>, sep: char): string {
    if |parts| == 0 then []
    else if |parts| == 1 then parts[0]
    else parts[0] + [sep] + Join(parts[1..], sep)
  }

  /** Splitting on a separator and joining again gives back the string,
      and no piece contains the separator. */
  lemma {:induction false} PiecesJoin(s: string, sep: char)
    ensures Join(Pieces(s, sep), sep) == s
    ensures forall i :: 0 <= i < |Pieces(s, sep)| ==> sep !in Pieces(s, sep)[i]
  {
    if s != [] {
      var rest := Pieces(s[1..], sep);
      PiecesJoin(s[1..], sep);
      if s[0] == sep {
        assert Pieces(s, sep) == [[]] + rest;
        assert Join([[]] + rest, sep) == [] + [sep] + Join(rest, sep);
      } else {
        var p := Pieces(s, sep);
        assert p == [[s[0]] + rest[0]] + rest[1..];
        if |rest| == 1 {
          assert Join(p, sep) == [s[0]] + rest[0];
        } else {
          assert rest == [rest[0]] + rest[1..];
          assert Join(rest, sep) == rest[0] + [sep] + Join(rest[1..], sep);
          assert Join(p, sep) == [s[0]] + rest[0] + [sep] + Join(rest[1..], sep);
        }
        forall i | 0 <= i < |p| ensures sep !in p[i] {
          if i > 0 {
            assert p[i] == rest[i];
          }
        }
      }
    }
  }

  /** The `limit == 0` rule of `String.split`: trailing empty strings are
      removed from the result. */
  function DropTrailingEmpty(parts: seq<string>): (r: seq<string>)
    ensures |r| <= |parts| && r == parts[..|r|]
    ensures r == [] || r[|r| - 1] != []
    ensures forall i :: |r| <= i < |parts| ==> parts[i] == []
  {
    if |parts| > 0 && parts[|parts| - 1] == [] then DropTrailingEmpty(parts[..|parts| - 1])
    else parts
  }

  /** `s.split(" ")`: a string without a space is returned whole (even the
      empty string); otherwise the pieces between single spaces, with the
      trailing empty pieces removed. */
  function SplitOnSpace(s: string): (r: seq<string>)
  {
    if ' ' !in s then [s] else DropTrailingEmpty(Pieces(s, ' '))
  }

  /** What `split(" ")` keeps: a prefix of the pieces between single spaces,
      none containing a space, ending on a non-empty piece when the string
      contains a space, and dropping only empty pieces. */
  lemma SplitOnSpaceSpec(s: string)
    ensures var r := SplitOnSpace(s);
      && (' ' !in s ==> r == [s])
      && (' ' in s ==> r == Pieces(s, ' ')[..|r|] && (r == [] || r[|r| - 1] != []))
      && (' ' in s ==> forall i :: |r| <= i < |Pieces(s, ' ')| ==> Pieces(s, ' ')[i] == [])
      && (forall i :: 0 <= i < |r| ==> ' ' !in r[i])
  {
    PiecesJoin(s, ' ');
  }

  /** A field free of the separator is a piece of its own. */
  lemma {:induction false} PiecesAfterField(a: string, sep: char, b: string)
    requires sep !in a
    ensures Pieces(a + [sep] + b, sep) == [a] + Pieces(b, sep)
    decreases |a|
  {
    if a == [] {
      assert [] + [sep] + b == [sep] + b;
      assert ([sep] + b)[1..] == b;
    } else {
      PiecesAfterField(a[1..], sep, b);
      assert (a + [sep] + b)[1..] == a[1..] + [sep] + b;
      assert [a[0]] + a[1..] == a;
    }
  }

  lemma {:induction false} PiecesOfField(a: string, sep: char)
    requires sep !in a
    ensures Pieces(a, sep) == [a]
    decreases |a|
  {
    if a != [] {
      PiecesOfField(a[1..], sep);
      assert [a[0]] + a[1..] == a;
    }
  }

  /** Splitting fields joined by the separator gives the fields back. */
  lemma {:induction false} PiecesOfJoin(fields: seq<string>, sep: char)
    requires |fields| >= 1
    requires forall i :: 0 <= i < |fields| ==> sep !in fields[i]
    ensures Pieces(Join(fields, sep), sep) == fields
    decreases |fields|
  {
    if |fields| == 1 {
      PiecesOfField(fields[0], sep);
    } else {
      PiecesOfJoin(fields[1..], sep);
      PiecesAfterField(fields[0], sep, Join(fields[1..], sep));
      assert fields == [fields[0]] + fields[1..];
    }
  }

  /** `split(" ")` undoes joining at least two space-free fields with
      single spaces, provided the last field is not empty. */
  lemma SplitJoin(fields: seq<string>)
    requires |fields| >= 2 && fields[|fields| - 1] != []
    requires forall i :: 0 <= i < |fields| ==> ' ' !in fields[i]
    ensures SplitOnSpace(Join(fields, ' ')) == fields
  {
    PiecesOfJoin(fields, ' ');
    var s := Join(fields, ' ');
    assert s == fields[0] + [' '] + Join(fields[1..], ' ');
    assert s[|fields[0]|] == ' ';
  }

  // ---------------------------------------------------------------------
  // String.split("\\s+")
  // ---------------------------------------------------------------------

  /** Java's regex class `\s`: space, tab, line feed, vertical tab, form
      feed and carriage return. */
  predicate IsSpace(c: char) {
    c == ' ' || 9 <= c as int <= 13
  }

  predicate NoSpace(s: string) {
    forall i :: 0 <= i < |s| ==> !IsSpace(s[i])
  }

  function DropSpaces(s: string): (r: string)
    ensures |r| <= |s| && r == s[|s| - |r|..]
    ensures forall k :: 0 <= k < |s| - |r| ==> IsSpace(s[k])
    ensures r == [] || !IsSpace(r[0])
  {
    if |s| > 0 && IsSpace(s[0]) then DropSpaces(s[1..]) else s
  }

  /** The pieces of `s` between maximal runs of `\s` characters (one leading
      empty piece when `s` starts with a run, one trailing empty piece when
      it ends with one). */
  function WsPieces(s: string): (r: seq<string>)
    ensures |r| >= 1
    decreases |s|
  {
    if s == [] then [[]]
    else if IsSpace(s[0]) then [[]] + WsPieces(DropSpaces(s))
    else
      var rest := WsPieces(s[1..]);
      [[s[0]] + rest[0]] + rest[1..]
  }

  /** `s.split("\\s+")`: a string with no `\s` character is returned whole;
      otherwise the pieces between runs, trailing empty pieces removed. */
  function SplitOnWhitespace(s: string): (r: seq<string>)
  {
    if NoSpace(s) then [s] else DropTrailingEmpty(WsPieces(s))
  }

  /** The characters of `s` that are not `\s`, in order. */
  function RemoveSpaces(s: string): string {
    if s == [] then [] else (if IsSpace(s[0]) then [] else [s[0]]) + RemoveSpaces(s[1..])
  }

  function Concat(parts: seq<string>): string {
    if parts == [] then [] else parts[0] + Concat(parts[1..])
  }

  lemma {:induction false} RemoveSpacesOfSpaces(s: string, n: nat)
    requires n <= |s|
    requires forall k :: 0 <= k < n ==> IsSpace(s[k])
    ensures RemoveSpaces(s) == RemoveSpaces(s[n..])
    decreases n
  {
    if n > 0 {
      RemoveSpacesOfSpaces(s[1..], n - 1);
      assert s[1..][n - 1..] == s[n..];
    }
  }

  lemma {:induction false} RemoveSpacesOfNoSpace(s: string)
    requires NoSpace(s)
    ensures RemoveSpaces(s) == s
  {
    if s != [] {
      RemoveSpacesOfNoSpace(s[1..]);
    }
  }

  lemma PrependNoSpace(c: char, t: string)
    requires !IsSpace(c) && NoSpace(t)
    ensures NoSpace([c] + t)
  {
    forall k | 0 <= k < |[c] + t| ensures !IsSpace(([c] + t)[k]) {
      if k > 0 {
        assert ([c] + t)[k] == t[k - 1];
      }
    }
  }

  /** No piece holds a `\s` character. */
  lemma {:induction false} WsPiecesNoSpace(s: string)
    ensures forall i :: 0 <= i < |WsPieces(s)| ==> NoSpace(WsPieces(s)[i])
    decreases |s|
  {
    var p := WsPieces(s);
    if s == [] {
    } else if IsSpace(s[0]) {
      var q := WsPieces(DropSpaces(s));
      WsPiecesNoSpace(DropSpaces(s));
      assert p == [[]] + q;
      forall i | 0 < i < |p| ensures NoSpace(p[i]) {
        assert p[i] == q[i - 1];
      }
    } else {
      var q := WsPieces(s[1..]);
      WsPiecesNoSpace(s[1..]);
      assert p == [[s[0]] + q[0]] + q[1..];
      PrependNoSpace(s[0], q[0]);
      forall i | 0 < i < |p| ensures NoSpace(p[i]) {
        assert p[i] == q[i];
      }
    }
  }

  /** Only the first and the last piece may be empty. */
  lemma {:induction false} WsPiecesInner(s: string)
    ensures forall i :: 0 < i < |WsPieces(s)| - 1 ==> WsPieces(s)[i] != []
    decreases |s|
  {
    var p := WsPieces(s);
    if s == [] {
    } else if IsSpace(s[0]) {
      var q := WsPieces(DropSpaces(s));
      WsPiecesInner(DropSpaces(s));
      assert p == [[]] + q;
      assert DropSpaces(s) == [] || !IsSpace(DropSpaces(s)[0]);
      forall i | 0 < i < |p| - 1 ensures p[i] != [] {
        assert p[i] == q[i - 1];
      }
    } else {
      var q := WsPieces(s[1..]);
      WsPiecesInner(s[1..]);
      assert p == [[s[0]] + q[0]] + q[1..];
      forall i | 0 < i < |p| - 1 ensures p[i] != [] {
        assert p[i] == q[i];
      }
    }
  }

  /** For a non-empty `s`, the first piece is empty only when `s` starts
      with a run, and the last only when `s` ends with one. */
  lemma {:induction false} WsPiecesEnds(s: string)
    ensures s != [] && !IsSpace(s[0]) ==> WsPieces(s)[0] != []
    ensures s != [] && !IsSpace(s[|s| - 1]) ==> WsPieces(s)[|WsPieces(s)| - 1] != []
    decreases |s|
  {
    var p := WsPieces(s);
    if s == [] {
    } else if IsSpace(s[0]) {
      var t := DropSpaces(s);
      var q := WsPieces(t);
      WsPiecesEnds(t);
      assert p == [[]] + q;
      if !IsSpace(s[|s| - 1]) {
        assert t != [] && t[|t| - 1] == s[|s| - 1];
        assert p[|p| - 1] == q[|q| - 1];
      }
    } else {
      var q := WsPieces(s[1..]);
      WsPiecesEnds(s[1..]);
      assert p == [[s[0]] + q[0]] + q[1..];
      if |p| > 1 && !IsSpace(s[|s| - 1]) {
        assert s[1..] != [] && s[1..][|s[1..]| - 1] == s[|s| - 1];
        assert p[|p| - 1] == q[|q| - 1];
      }
    }
  }

  /** Together the pieces hold exactly the non-space characters of `s`. */
  lemma {:induction false} WsPiecesConcat(s: string)
    ensures Concat(WsPieces(s)) == RemoveSpaces(s)
    decreases |s|
  {
    var p := WsPieces(s);
    if s == [] {
    } else if IsSpace(s[0]) {
      var t := DropSpaces(s);
      WsPiecesConcat(t);
      RemoveSpacesOfSpaces(s, |s| - |t|);
      assert p == [[]] + WsPieces(t);
      assert Concat(p) == [] + Concat(WsPieces(t));
    } else {
      var q := WsPieces(s[1..]);
      WsPiecesConcat(s[1..]);
      assert p == [[s[0]] + q[0]] + q[1..];
      assert q == [q[0]] + q[1..];
      assert Concat(q) == q[0] + Concat(q[1..]);
      assert Concat(p) == [s[0]] + q[0] + Concat(q[1..]);
      assert RemoveSpaces(s) == [s[0]] + RemoveSpaces(s[1..]);
    }
  }

  /** `s` with each maximal run of `\s` characters replaced by one space. */
  function Squeeze(s: string): string
    decreases |s|
  {
    if s == [] then []
    else if IsSpace(s[0]) then [' '] + Squeeze(DropSpaces(s))
    else [s[0]] + Squeeze(s[1..])
  }

  lemma {:induction false} SqueezeNoSpace(s: string)
    requires NoSpace(s)
    ensures Squeeze(s) == s
  {
    if s != [] {
      SqueezeNoSpace(s[1..]);
    }
  }

  lemma NoSpaceNoBlank(s: string)
    requires NoSpace(s)
    ensures ' ' !in s
  {
    forall k | 0 <= k < |s| ensures s[k] != ' ' {
      assert !IsSpace(s[k]);
    }
  }

  /** Gluing the `\s+` pieces with single spaces gives the squeezed text. */
  lemma {:induction false} WsPiecesJoin(s: string)
    ensures Join(WsPieces(s), ' ') == Squeeze(s)
    decreases |s|
  {
    if s == [] {
    } else if IsSpace(s[0]) {
      var t := DropSpaces(s);
      WsPiecesJoin(t);
      assert WsPieces(s) == [[]] + WsPieces(t);
      JoinCons([], WsPieces(t), ' ');
    } else {
      var q := WsPieces(s[1..]);
      WsPiecesJoin(s[1..]);
      assert WsPieces(s) == [[s[0]] + q[0]] + q[1..];
      JoinPrepend(s[0], q, ' ');
    }
  }

  lemma JoinCons(a: string, rest: seq<string>, sep: char)
    requires |rest| >= 1
    ensures Join([a] + rest, sep) == a + [sep] + Join(rest, sep)
  {
    assert ([a] + rest)[1..] == rest;
  }

  lemma JoinPrepend(c: char, q: seq<string>, sep: char)
    requires |q| >= 1
    ensures Join([[c] + q[0]] + q[1..], sep) == [c] + Join(q, sep)
  {
    if |q| > 1 {
      JoinCons([c] + q[0], q[1..], sep);
      JoinCons(q[0], q[1..], sep);
      assert q == [q[0]] + q[1..];
    }
  }

  /** The `\s+` pieces are exactly the single-space pieces of the squeezed
      text: the split happens at every run of `\s` and nowhere else. */
  lemma WsPiecesSqueeze(s: string)
    ensures WsPieces(s) == Pieces(Squeeze(s), ' ')
  {
    WsPiecesNoSpace(s);
    WsPiecesJoin(s);
    var p := WsPieces(s);
    forall i | 0 <= i < |p| ensures ' ' !in p[i] {
      NoSpaceNoBlank(p[i]);
    }
    PiecesOfJoin(p, ' ');
  }

  /** The tokens `text.trim().split("\\s+")` produces. */
  function Tokens(text: string): seq<string> {
    SplitOnWhitespace(Trim(text))
  }

  /** A text that neither starts nor ends with `\s` splits into non-empty
      tokens free of `\s` that together hold its non-space characters. */
  lemma WhitespaceSplit(s: string)
    requires s != [] && !IsSpace(s[0]) && !IsSpace(s[|s| - 1])
    ensures forall i :: 0 <= i < |SplitOnWhitespace(s)| ==> SplitOnWhitespace(s)[i] != [] && NoSpace(SplitOnWhitespace(s)[i])
    ensures Concat(SplitOnWhitespace(s)) == RemoveSpaces(s)
  {
    if NoSpace(s) {
      RemoveSpacesOfNoSpace(s);
      assert Concat([s]) == s + Concat([]);
    } else {
      WsPiecesNoSpace(s);
      WsPiecesInner(s);
      WsPiecesEnds(s);
      WsPiecesConcat(s);
      assert DropTrailingEmpty(WsPieces(s)) == WsPieces(s);
    }
  }

  /** Such a text splits where its runs of `\s` are and nowhere else: the
      tokens are the pieces between single spaces once each run is
      squeezed to one space, and joining them with single spaces gives
      the squeezed text back. */
  lemma WhitespaceSplitSqueeze(s: string)
    requires s != [] && !IsSpace(s[|s| - 1])
    ensures SplitOnWhitespace(s) == Pieces(Squeeze(s), ' ')
    ensures Join(SplitOnWhitespace(s), ' ') == Squeeze(s)
  {
    if NoSpace(s) {
      SqueezeNoSpace(s);
      NoSpaceNoBlank(s);
      PiecesOfField(s, ' ');
    } else {
      WsPiecesEnds(s);
      assert DropTrailingEmpty(WsPieces(s)) == WsPieces(s);
      WsPiecesSqueeze(s);
      WsPiecesJoin(s);
    }
  }

  /** A blank text gives the single empty token; any other text gives
      non-empty tokens free of `\s` characters that together hold exactly
      the non-space characters of the trimmed text, in order, and that are
      the pieces between single spaces of the trimmed text with every run
      of `\s` squeezed to one space. */
  lemma TokensSpec(text: string)
    ensures Trim(text) == [] ==> Tokens(text) == [[]]
    ensures Trim(text) != [] ==>
      && (forall i :: 0 <= i < |Tokens(text)| ==> Tokens(text)[i] != [] && NoSpace(Tokens(text)[i]))
      && Concat(Tokens(text)) == RemoveSpaces(Trim(text))
      && Tokens(text) == Pieces(Squeeze(Trim(text)), ' ')
      && Join(Tokens(text), ' ') == Squeeze(Trim(text))
  {
    var s := Trim(text);
    if s != [] {
      WhitespaceSplit(s);
      WhitespaceSplitSqueeze(s);
    }
  }

  // ---------------------------------------------------------------------
  // Integer.parseInt and Integer/Long.toString
  // ---------------------------------------------------------------------

  predicate IsDigit(c: char) {
    '0' <= c <= '9'
  }

  predicate AllDigits(s: string) {
    forall i :: 0 <= i < |s| ==> IsDigit(s[i])
  }

  function DigitChar(d: int): (c: char)
    requires 0 <= d < 10
    ensures IsDigit(c)
  {
    ('0' as int + d) as char
  }

  /** The value of a string of decimal digits, most significant first. */
  function DigitsValue(s: string): nat
    requires AllDigits(s)
  {
    if s == [] then 0
    else DigitsValue(s[..|s| - 1]) * 10 + (s[|s| - 1] as int - '0' as int)
  }

  function Pow10(n: nat): nat {
    if n == 0 then 1 else 10 * Pow10(n - 1)
  }

  /** A leading digit contributes its value times ten to the power of the
      number of digits after it. */
  lemma {:induction false} DigitsValueCons(c: char, t: string)
    requires IsDigit(c) && AllDigits(t)
    ensures AllDigits([c] + t)
    ensures DigitsValue([c] + t) == (c as int - '0' as int) * Pow10(|t|) + DigitsValue(t)
    decreases |t|
  {
    var ct := [c] + t;
    assert AllDigits(ct) by {
      forall k | 0 <= k < |ct| ensures IsDigit(ct[k]) {
        if k > 0 {
          assert ct[k] == t[k - 1];
        }
      }
    }
    if t != [] {
      var init := t[..|t| - 1];
      DigitsValueCons(c, init);
      assert ct[..|ct| - 1] == [c] + init;
      var d, e := c as int - '0' as int, t[|t| - 1] as int - '0' as int;
      var p, v := Pow10(|init|), DigitsValue(init);
      assert DigitsValue(ct) == (d * p + v) * 10 + e;
      assert DigitsValue(t) == v * 10 + e;
      assert Pow10(|t|) == 10 * p;
      MulShift(d, p, v);
    }
  }

  lemma MulShift(d: int, p: int, v: int)
    ensures (d * p + v) * 10 == d * (10 * p) + v * 10
  {
  }

  /** The decimal digits of a natural number, without leading zeros. */
  function Digits(n: nat): (r: string)
    ensures r != [] && AllDigits(r)
  {
    if n < 10 then [DigitChar(n)] else Digits(n / 10) + [DigitChar(n % 10)]
  }

  /** `Integer.toString` / `Long.toString` / string concatenation of an
      integer: a minus sign for negative values, then the digits. */
  function Decimal(n: int): string {
    if n < 0 then "-" + Digits(-n) else Digits(n)
  }

  /** `Integer.parseInt`: an optional `+` or `-`, at least one decimal
      digit and nothing else, and a value inside the `int` range; `None`
      stands for the NumberFormatException thrown otherwise. */
  function ParseInt(s: string): Option<int32> {
    if s == [] then None
    else
      var signed := s[0] == '-' || s[0] == '+';
      var body := if signed then s[1..] else s;
      if body == [] || !AllDigits(body) then None
      else
        var v: int := if s[0] == '-' then -(DigitsValue(body) as int) else DigitsValue(body);
        if IntMin <= v <= IntMax then Some(v) else None
  }

  lemma {:induction false} DigitsRoundTrip(n: nat)
    ensures DigitsValue(Digits(n)) == n
  {
    if n >= 10 {
      DigitsRoundTrip(n / 10);
      var d := Digits(n / 10) + [DigitChar(n % 10)];
      assert d[..|d| - 1] == Digits(n / 10);
    }
  }

  /** `Integer.parseInt` reads back what `Integer.toString` prints. */
  lemma ParseDecimal(n: int32)
    ensures ParseInt(Decimal(n)) == Some(n)
  {
    var m: nat := if n < 0 then -(n as int) else n as int;
    DigitsRoundTrip(m);
    var d := Decimal(n);
    if n < 0 {
      assert d == "-" + Digits(m) && d[0] == '-' && d[1..] == Digits(m);
    } else {
      assert d == Digits(m) && IsDigit(d[0]);
    }
  }

  /** Distinct integers print differently. */
  lemma DecimalInjective(a: int, b: int)
    requires Decimal(a) == Decimal(b)
    ensures a == b
  {
    DigitsRoundTrip(if a < 0 then -a else a);
    DigitsRoundTrip(if b < 0 then -b else b);
    var d := Decimal(a);
    assert d[0] == '-' <==> a < 0;
    assert d[0] == '-' <==> b < 0;
    if a < 0 {
      assert Digits(-a) == d[1..] == Digits(-b);
    }
  }
}
