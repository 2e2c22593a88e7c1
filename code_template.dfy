/**
 * The embedded-code engine of the HTML branch of `sendFileResponse`
 * (Project/src/ClientHandler.java, lines 134-146): a hand-written matcher
 * for the one pattern the server compiles,
 *
 *     <code\s+interpreteur="(.*?)">(.*?)</code>
 *
 * with `java.util.regex` semantics (no flags: `.` stops at line
 * terminators, `\s` is the ASCII whitespace class), the successive
 * `Matcher.find()` calls, `Matcher.appendReplacement` with its `$` and
 * `\` replacement syntax, `appendTail`, and the loop that drives them.
 * The interpreter call is a parameter `execute`.
 */
module CodeTemplate {
  import opened JavaLang

  const Open: string := "<code"
  const Attr: string := "interpreteur=\""
  const Sep: string := "\">"
  const Close: string := "</code>"

  /** The characters `.` does not match: line feed, carriage return,
      next line (U+0085), line separator and paragraph separator. */
  predicate IsLineTerminator(c: char) {
    c == '\n' || c == '\r' || c as int == 0x85 || c as int == 0x2028 || c as int == 0x2029
  }

  predicate LiteralAt(s: string, i: nat, lit: string) {
    i + |lit| <= |s| && s[i..i + |lit|] == lit
  }

  predicate NoTerminator(s: string, i: nat, j: nat)
    requires i <= j <= |s|
  {
    forall k :: i <= k < j ==> !IsLineTerminator(s[k])
  }

  predicate AllSpace(s: string, i: nat, j: nat)
    requires i <= j <= |s|
  {
    forall k :: i <= k < j ==> IsSpace(s[k])
  }

  /** One occurrence of the pattern, by positions in the text: `start` is
      the `<` of `<code`, `attr` the `i` of `interpreteur="`, `sep` the `"`
      of `">` and `close` the `<` of `</code>`. Group 1 is the text
      between `attr + |Attr|` and `sep`, group 2 the text between
      `sep + |Sep|` and `close`. */
  datatype Block = Block(start: nat, attr: nat, sep: nat, close: nat) {
    function End(): nat {
      close + |Close|
    }
  }

  /** The regular expression matches the text at `b`: the literals are in
      place, a non-empty run of `\s` precedes the attribute, and neither
      group crosses a line terminator. */
  predicate IsMatch(s: string, b: Block) {
    && LiteralAt(s, b.start, Open)
    && b.start + |Open| < b.attr
    && LiteralAt(s, b.attr, Attr)
    && AllSpace(s, b.start + |Open|, b.attr)
    && b.attr + |Attr| <= b.sep
    && LiteralAt(s, b.sep, Sep)
    && NoTerminator(s, b.attr + |Attr|, b.sep)
    && b.sep + |Sep| <= b.close
    && LiteralAt(s, b.close, Close)
    && NoTerminator(s, b.sep + |Sep|, b.close)
  }

  /** The order in which backtracking tries the two lazy groups: the
      shortest first group first, then the shortest second group. */
  predicate TriedBefore(b: Block, c: Block) {
    b.sep < c.sep || (b.sep == c.sep && b.close <= c.close)
  }

  /** Greedy `\s+`: the end of the run of `\s` characters starting at `i`. */
  function SpaceRunEnd(s: string, i: nat): (r: nat)
    requires i <= |s|
    ensures i <= r <= |s| && AllSpace(s, i, r)
    ensures r == |s| || !IsSpace(s[r])
    decreases |s| - i
  {
    if i < |s| && IsSpace(s[i]) then SpaceRunEnd(s, i + 1) else i
  }

  /** A lazy `(.*?)` followed by `lit`, from position `i`: the first
      occurrence of `lit`, provided no line terminator comes before it. */
  function LazyUntil(s: string, i: nat, lit: string): (r: Option<nat>)
    requires i <= |s|
    ensures r.Some? ==> i <= r.value <= |s| && LiteralAt(s, r.value, lit) && NoTerminator(s, i, r.value)
    ensures r.Some? ==> forall k :: i <= k < r.value ==> !LiteralAt(s, k, lit)
    ensures r.None? ==> forall k :: i <= k <= |s| && LiteralAt(s, k, lit) ==> !NoTerminator(s, i, k)
    decreases |s| - i
  {
    if LiteralAt(s, i, lit) then Some(i)
    else if i == |s| || IsLineTerminator(s[i]) then None
    else LazyUntil(s, i + 1, lit)
  }

  /** The match the regex engine reports for a match attempt at `p`: both
      lazy groups stop at the first occurrence of the literal after them. */
  function MatchAt(s: string, p: nat): (r: Option<Block>)
    requires p <= |s|
    ensures r.Some? ==> r.value.start == p && IsMatch(s, r.value)
    ensures r.Some? ==> p < r.value.End() <= |s|
    ensures r.Some? ==> forall k :: r.value.attr + |Attr| <= k < r.value.sep ==> !LiteralAt(s, k, Sep)
    ensures r.Some? ==> forall k :: r.value.sep + |Sep| <= k < r.value.close ==> !LiteralAt(s, k, Close)
  {
    if !LiteralAt(s, p, Open) then None
    else
      var a := SpaceRunEnd(s, p + |Open|);
      if a == p + |Open| || !LiteralAt(s, a, Attr) then None
      else
        match LazyUntil(s, a + |Attr|, Sep)
        case None => None
        case Some(sep) =>
          match LazyUntil(s, sep + |Sep|, Close)
          case None => None
          case Some(close) => Some(Block(p, a, sep, close))
  }

  /** Any match at `p` has its attribute where the greedy `\s+` ends. */
  lemma AttrIsRunEnd(s: string, c: Block)
    requires IsMatch(s, c)
    ensures c.attr == SpaceRunEnd(s, c.start + |Open|)
  {
    var a := SpaceRunEnd(s, c.start + |Open|);
    assert s[c.attr] == Attr[0];
    assert !IsSpace(s[c.attr]);
  }

  /** Once a `">` is found after the attribute, a `</code>` follows it on
      its line whenever some match has its `">` there or further on: the
      first group cannot cross a line terminator, so neither can the text
      between the two. */
  lemma CloseAfterSep(s: string, sep: nat, c: Block)
    requires IsMatch(s, c)
    requires c.attr + |Attr| <= sep <= c.sep && LiteralAt(s, sep, Sep)
    ensures LazyUntil(s, sep + |Sep|, Close).Some?
  {
    forall t | sep + |Sep| <= t < c.close ensures !IsLineTerminator(s[t]) {
      if t < c.sep {
      } else if t < c.sep + |Sep| {
        assert s[t] == Sep[t - c.sep];
      }
    }
    assert NoTerminator(s, sep + |Sep|, c.close);
  }

  /** `MatchAt` reports a match exactly when the pattern matches at `p`,
      and the one it reports is the first the backtracking order tries. */
  lemma MatchAtSpec(s: string, p: nat)
    requires p <= |s|
    ensures MatchAt(s, p).Some? ==>
      forall c: Block :: c.start == p && IsMatch(s, c) ==> TriedBefore(MatchAt(s, p).value, c)
    ensures MatchAt(s, p).None? ==> forall c: Block :: c.start == p ==> !IsMatch(s, c)
  {
    forall c: Block | c.start == p && IsMatch(s, c)
      ensures MatchAt(s, p).Some? && TriedBefore(MatchAt(s, p).value, c)
    {
      AttrIsRunEnd(s, c);
      var sep := LazyUntil(s, c.attr + |Attr|, Sep);
      assert sep.Some?;
      CloseAfterSep(s, sep.value, c);
    }
  }

  /** No match attempt succeeds at any position from `i` up to `j`. */
  predicate NoMatchBetween(s: string, i: nat, j: nat)
    requires j <= |s| + 1
  {
    forall p :: i <= p < j ==> MatchAt(s, p).None?
  }

  /** `Matcher.find()` from position `from`: the match at the leftmost
      position where an attempt succeeds. */
  function Find(s: string, from: nat): (r: Option<Block>)
    requires from <= |s|
    ensures r.Some? ==> from <= r.value.start <= |s| && MatchAt(s, r.value.start) == r
    ensures r.Some? ==> NoMatchBetween(s, from, r.value.start)
    ensures r.None? ==> NoMatchBetween(s, from, |s| + 1)
    decreases |s| - from
  {
    match MatchAt(s, from)
    case Some(b) => Some(b)
    case None =>
      if from == |s| then None
      else
        var r := Find(s, from + 1);
        NoMatchExtend(s, from, if r.Some? then r.value.start else |s| + 1);
        r
  }

  lemma NoMatchExtend(s: string, i: nat, j: nat)
    requires i < j <= |s| + 1 && i <= |s|
    requires MatchAt(s, i).None? && NoMatchBetween(s, i + 1, j)
    ensures NoMatchBetween(s, i, j)
  {
  }

  /** Where the unmatched text before block `i` begins. */
  function GapStart(from: nat, bs: seq<Block>, i: nat): nat
    requires i <= |bs|
  {
    if i == 0 then from else bs[i - 1].End()
  }

  /** The blocks lie in text order from `from` on, without overlapping. */
  predicate Tiled(s: string, from: nat, bs: seq<Block>) {
    && from <= |s|
    && forall i :: 0 <= i < |bs| ==> GapStart(from, bs, i) <= bs[i].start < bs[i].End() <= |s|
  }

  lemma TiledTail(s: string, from: nat, bs: seq<Block>)
    requires bs != [] && Tiled(s, from, bs)
    ensures Tiled(s, bs[0].End(), bs[1..])
  {
    assert GapStart(from, bs, 0) == from;
    forall i | 0 <= i < |bs| - 1
      ensures GapStart(bs[0].End(), bs[1..], i) == GapStart(from, bs, i + 1)
    {
    }
  }

  lemma TiledCons(s: string, from: nat, b: Block, rest: seq<Block>)
    requires from <= b.start < b.End() <= |s| && Tiled(s, b.End(), rest)
    ensures Tiled(s, from, [b] + rest)
  {
    var bs := [b] + rest;
    forall i | 0 < i < |bs| ensures GapStart(from, bs, i) <= bs[i].start < bs[i].End() <= |s| {
      GapShift(from, b, rest, i);
    }
  }

  /** The gaps of `[b] + rest` after the first are those of `rest`. */
  lemma GapShift(from: nat, b: Block, rest: seq<Block>, i: nat)
    requires 0 < i <= |rest|
    ensures ([b] + rest)[i] == rest[i - 1]
    ensures GapStart(from, [b] + rest, i) == GapStart(b.End(), rest, i - 1)
  {
  }

  /** The blocks successive `find()` calls report, each search resuming
      where the previous match ended: in text order, never overlapping,
      and each the match the regex engine reports at its start (so each
      ends at the first `</code>` after its `">`). */
  function Blocks(s: string, from: nat): (bs: seq<Block>)
    requires from <= |s|
    ensures Tiled(s, from, bs)
    ensures forall i :: 0 <= i < |bs| ==> IsMatch(s, bs[i])
    ensures forall i :: 0 <= i < |bs| ==> MatchAt(s, bs[i].start) == Some(bs[i])
    decreases |s| - from
  {
    match Find(s, from)
    case None => []
    case Some(b) =>
      var rest := Blocks(s, b.End());
      TiledCons(s, from, b, rest);
      [b] + rest
  }

  /** The blocks are leftmost: no match attempt succeeds in the text
      before, between or after them. */
  predicate Leftmost(s: string, from: nat, bs: seq<Block>)
    requires Tiled(s, from, bs)
  {
    && (forall i :: 0 <= i < |bs| ==> NoMatchBetween(s, GapStart(from, bs, i), bs[i].start))
    && NoMatchBetween(s, GapStart(from, bs, |bs|), |s| + 1)
  }

  lemma LeftmostCons(s: string, from: nat, b: Block, rest: seq<Block>)
    requires from <= b.start < b.End() <= |s| && Tiled(s, b.End(), rest)
    requires NoMatchBetween(s, from, b.start) && Leftmost(s, b.End(), rest)
    ensures Tiled(s, from, [b] + rest) && Leftmost(s, from, [b] + rest)
  {
    TiledCons(s, from, b, rest);
    LeftmostConsGaps(s, from, b, rest);
    LastGapShift(from, b, rest);
  }

  lemma LeftmostConsGaps(s: string, from: nat, b: Block, rest: seq<Block>)
    requires from <= b.start < b.End() <= |s| && Tiled(s, b.End(), rest)
    requires NoMatchBetween(s, from, b.start) && Leftmost(s, b.End(), rest)
    ensures forall i :: 0 <= i < |[b] + rest| ==>
      NoMatchBetween(s, GapStart(from, [b] + rest, i), ([b] + rest)[i].start)
  {
    var bs := [b] + rest;
    forall i | 0 <= i < |bs| ensures NoMatchBetween(s, GapStart(from, bs, i), bs[i].start) {
      if i > 0 {
        GapShift(from, b, rest, i);
      }
    }
  }

  lemma LastGapShift(from: nat, b: Block, rest: seq<Block>)
    ensures GapStart(from, [b] + rest, |rest| + 1) == GapStart(b.End(), rest, |rest|)
  {
  }

  lemma {:induction false} BlocksLeftmost(s: string, from: nat)
    requires from <= |s|
    ensures Leftmost(s, from, Blocks(s, from))
    decreases |s| - from
  {
    match Find(s, from)
    case None =>
    case Some(b) =>
      BlocksLeftmost(s, b.End());
      LeftmostCons(s, from, b, Blocks(s, b.End()));
  }

  // ---------------------------------------------------------------------
  // Matcher.appendReplacement
  // ---------------------------------------------------------------------

  /** The pattern has two capturing groups. */
  const GroupCount: nat := 2

  function DigitOf(c: char): nat
    requires IsDigit(c)
  {
    c as int - '0' as int
  }

  /** After `$d`, further digits extend the group number for as long as it
      stays a valid group number: reading from `i` passes over digits only
      and stops at the first character that is not a digit or would push
      the number past the group count. */
  function ReadGroupRef(r: string, i: nat, ref: nat): (res: (nat, nat))
    requires i <= |r| && ref <= GroupCount
    ensures res.0 <= GroupCount && i <= res.1 <= |r|
    ensures forall k :: i <= k < res.1 ==> IsDigit(r[k])
    ensures res.1 == |r| || !IsDigit(r[res.1]) || res.0 * 10 + DigitOf(r[res.1]) > GroupCount
    decreases |r| - i
  {
    if i < |r| && IsDigit(r[i]) && ref * 10 + DigitOf(r[i]) <= GroupCount
    then ReadGroupRef(r, i + 1, ref * 10 + DigitOf(r[i]))
    else (ref, i)
  }

  /** The number read is `ref` extended by the decimal value of the digits
      passed over. */
  lemma {:induction false} ReadGroupRefValue(r: string, i: nat, ref: nat)
    requires i <= |r| && ref <= GroupCount
    ensures var res := ReadGroupRef(r, i, ref);
      AllDigits(r[i..res.1]) && res.0 == ref * Pow10(res.1 - i) + DigitsValue(r[i..res.1])
    decreases |r| - i
  {
    var res := ReadGroupRef(r, i, ref);
    if i < |r| && IsDigit(r[i]) && ref * 10 + DigitOf(r[i]) <= GroupCount {
      var ref' := ref * 10 + DigitOf(r[i]);
      ReadGroupRefValue(r, i + 1, ref');
      var tail := r[i + 1..res.1];
      DigitsValueCons(r[i], tail);
      assert r[i..res.1] == [r[i]] + tail;
      assert Pow10(res.1 - i) == 10 * Pow10(|tail|);
      ShiftDigit(ref, DigitOf(r[i]), Pow10(|tail|), DigitsValue(tail));
    } else {
      assert r[i..res.1] == [];
    }
  }

  lemma ShiftDigit(ref: int, d: int, p: int, v: int)
    ensures (ref * 10 + d) * p + v == ref * (10 * p) + (d * p + v)
  {
  }

  /** The text `appendReplacement` inserts for a replacement string:
      `\x` is the character `x`, `$n` is group `n` (group 0 being the whole
      match), any other character stands for itself. `None` stands for the
      unchecked exception Java throws for a trailing `\` or `$`, a `$` not
      followed by a digit (named references included: the pattern has no
      named group) and a group number above the group count. */
  function Expand(r: string, groups: seq<string>): (e: Option<string>)
    requires |groups| == GroupCount + 1
    decreases |r|
  {
    if r == [] then Some([])
    else if r[0] == '\\' then
      if |r| == 1 then None else Prepend([r[1]], Expand(r[2..], groups))
    else if r[0] == '$' then
      if |r| == 1 || !IsDigit(r[1]) || DigitOf(r[1]) > GroupCount then None
      else
        var (g, next) := ReadGroupRef(r, 2, DigitOf(r[1]));
        Prepend(groups[g], Expand(r[next..], groups))
    else Prepend([r[0]], Expand(r[1..], groups))
  }

  function Prepend(t: string, e: Option<string>): Option<string> {
    match e
    case None => None
    case Some(u) => Some(t + u)
  }

  /** An output free of `$` and `\` is inserted as it is. */
  lemma {:induction false} ExpandPlain(r: string, groups: seq<string>)
    requires |groups| == GroupCount + 1
    requires '$' !in r && '\\' !in r
    ensures Expand(r, groups) == Some(r)
  {
    if r != [] {
      assert r == [r[0]] + r[1..];
      ExpandPlain(r[1..], groups);
    }
  }

  /** `Matcher.quoteReplacement`: a backslash before every `\` and `$`. */
  function Quote(x: string): string {
    if x == [] then []
    else (if x[0] == '\\' || x[0] == '$' then ['\\', x[0]] else [x[0]]) + Quote(x[1..])
  }

  /** Expansion undoes quoting: a quoted output is inserted literally,
      whatever characters it holds. */
  lemma {:induction false} ExpandQuote(x: string, groups: seq<string>)
    requires |groups| == GroupCount + 1
    ensures Expand(Quote(x), groups) == Some(x)
  {
    if x != [] {
      ExpandQuote(x[1..], groups);
      var q := Quote(x);
      if x[0] == '\\' || x[0] == '$' {
        assert q == ['\\', x[0]] + Quote(x[1..]);
        assert q[2..] == Quote(x[1..]);
      } else {
        assert q == [x[0]] + Quote(x[1..]);
        assert q[1..] == Quote(x[1..]);
      }
      assert x == [x[0]] + x[1..];
    }
  }

  /** A reference to a group the pattern lacks, such as `$3`, throws. */
  lemma ExpandMissingGroup(d: char, rest: string, groups: seq<string>)
    requires |groups| == GroupCount + 1
    requires '3' <= d <= '9'
    ensures Expand(['$', d] + rest, groups) == None
  {
  }

  // ---------------------------------------------------------------------
  // The substitution loop
  // ---------------------------------------------------------------------

  /** One call of the interpreter: its name (group 1) and the code (group 2). */
  datatype Call = Call(interpreter: string, code: string)

  /** The outcome of the loop: the rewritten text and the calls made, or
      the calls made before `appendReplacement` threw. */
  datatype Substitution = Substituted(text: string, calls: seq<Call>) | Threw(calls: seq<Call>)

  function CallOf(s: string, b: Block): Call
    requires IsMatch(s, b)
  {
    Call(s[b.attr + |Attr|..b.sep], s[b.sep + |Sep|..b.close])
  }

  /** Group 0 (the whole match), group 1 and group 2. */
  function Groups(s: string, b: Block): (g: seq<string>)
    requires IsMatch(s, b)
    ensures |g| == GroupCount + 1
  {
    [s[b.start..b.End()], CallOf(s, b).interpreter, CallOf(s, b).code]
  }

  /** Puts text and calls in front of a later outcome. */
  function Prefix(text: string, calls: seq<Call>, r: Substitution): Substitution {
    match r
    case Substituted(t, cs) => Substituted(text + t, calls + cs)
    case Threw(cs) => Threw(calls + cs)
  }

  lemma PrefixPrefix(a: string, ca: seq<Call>, b: string, cb: seq<Call>, r: Substitution)
    ensures Prefix(a, ca, Prefix(b, cb, r)) == Prefix(a + b, ca + cb, r)
  {
    match r
    case Substituted(t, cs) =>
      assert a + (b + t) == (a + b) + t;
      assert ca + (cb + cs) == (ca + cb) + cs;
    case Threw(cs) =>
      assert ca + (cb + cs) == (ca + cb) + cs;
  }

  /** What the loop produces from search position `from` on: the text up to
      the next block, the block's expanded interpreter output, and the rest
      rewritten the same way; the tail after the last block unchanged. */
  function SubstituteFrom(s: string, from: nat, execute: (string, string) -> string): Substitution
    requires from <= |s|
    decreases |s| - from
  {
    match Find(s, from)
    case None => Substituted(s[from..], [])
    case Some(b) =>
      var call := CallOf(s, b);
      match Expand(execute(call.interpreter, call.code), Groups(s, b))
      case None => Threw([call])
      case Some(rep) => Prefix(s[from..b.start] + rep, [call], SubstituteFrom(s, b.End(), execute))
  }

  /** The lines 135-146 of `sendFileResponse`: find each block, run its code
      through `execute`, `appendReplacement` the output, then `appendTail`. */
  method SubstituteHtml(text: string, execute: (string, string) -> string) returns (r: Substitution)
    ensures r == SubstituteFrom(text, 0, execute)
  {
    var result: string := [];
    var calls: seq<Call> := [];
    var appendPos: nat := 0;
    while true
      invariant appendPos <= |text|
      invariant Prefix(result, calls, SubstituteFrom(text, appendPos, execute)) == SubstituteFrom(text, 0, execute)
      decreases |text| - appendPos
    {
      var found := Find(text, appendPos);
      if found.None? {
        break;
      }
      var b := found.value;
      var call := CallOf(text, b);
      var output := execute(call.interpreter, call.code);
      var expanded := Expand(output, Groups(text, b));
      if expanded.None? {
        assert SubstituteFrom(text, appendPos, execute) == Threw([call]);
        return Threw(calls + [call]);
      }
      PrefixPrefix(result, calls, text[appendPos..b.start] + expanded.value, [call],
        SubstituteFrom(text, b.End(), execute));
      result := result + (text[appendPos..b.start] + expanded.value);
      calls := calls + [call];
      appendPos := b.End();
    }
    r := Substituted(result + text[appendPos..], calls);
  }

  // ---------------------------------------------------------------------
  // Properties of the substitution
  // ---------------------------------------------------------------------

  /** A document without any block is sent unchanged and runs nothing. */
  lemma NoBlockUnchanged(s: string, execute: (string, string) -> string)
    requires Blocks(s, 0) == []
    ensures SubstituteFrom(s, 0, execute) == Substituted(s, [])
  {
    assert s[0..] == s;
  }

  /** The interleaving of the unmatched text with one replacement per block. */
  function Splice(s: string, from: nat, bs: seq<Block>, reps: seq<string>): string
    requires |reps| == |bs| && Tiled(s, from, bs)
    decreases |bs|
  {
    if bs == [] then s[from..]
    else
      TiledTail(s, from, bs);
      assert GapStart(from, bs, 0) == from;
      s[from..bs[0].start] + reps[0] + Splice(s, bs[0].End(), bs[1..], reps[1..])
  }

  /** Replacing every block by its own text gives back the document: the
      splice keeps everything outside the blocks verbatim and in order. */
  lemma {:induction false} SpliceIdentity(s: string, from: nat, bs: seq<Block>, reps: seq<string>)
    requires |reps| == |bs| && Tiled(s, from, bs)
    requires forall i :: 0 <= i < |bs| ==> reps[i] == s[bs[i].start..bs[i].End()]
    ensures Splice(s, from, bs, reps) == s[from..]
    decreases |bs|
  {
    if bs != [] {
      TiledTail(s, from, bs);
      assert GapStart(from, bs, 0) == from;
      SpliceIdentity(s, bs[0].End(), bs[1..], reps[1..]);
      assert s[from..] == s[from..bs[0].start] + s[bs[0].start..bs[0].End()] + s[bs[0].End()..];
    }
  }

  /** The calls made for a list of blocks, in order. */
  function CallsOf(s: string, bs: seq<Block>): (calls: seq<Call>)
    requires forall i :: 0 <= i < |bs| ==> IsMatch(s, bs[i])
    ensures |calls| == |bs|
  {
    if bs == [] then [] else [CallOf(s, bs[0])] + CallsOf(s, bs[1..])
  }

  /** The interpreter's output for each block, in order. */
  function Outputs(s: string, bs: seq<Block>, execute: (string, string) -> string): (outs: seq<string>)
    requires forall i :: 0 <= i < |bs| ==> IsMatch(s, bs[i])
    ensures |outs| == |bs|
  {
    if bs == [] then []
    else [execute(CallOf(s, bs[0]).interpreter, CallOf(s, bs[0]).code)] + Outputs(s, bs[1..], execute)
  }

  predicate PlainOutputs(outs: seq<string>) {
    forall i :: 0 <= i < |outs| ==> '$' !in outs[i] && '\\' !in outs[i]
  }

  /** When the interpreters print neither `$` nor `\`, the loop calls them
      once per block in text order and the result is the document with each
      block replaced by its output, all other text kept as it was. */
  lemma {:induction false} SubstituteSplices(s: string, from: nat, execute: (string, string) -> string)
    requires from <= |s|
    requires PlainOutputs(Outputs(s, Blocks(s, from), execute))
    ensures SubstituteFrom(s, from, execute) ==
      Substituted(Splice(s, from, Blocks(s, from), Outputs(s, Blocks(s, from), execute)),
                  CallsOf(s, Blocks(s, from)))
    decreases |s| - from
  {
    var bs := Blocks(s, from);
    match Find(s, from)
    case None =>
    case Some(b) =>
      var rest := Blocks(s, b.End());
      assert bs == [b] + rest;
      assert bs[1..] == rest;
      var outs := Outputs(s, bs, execute);
      var call := CallOf(s, b);
      assert outs[0] == execute(call.interpreter, call.code);
      assert Outputs(s, rest, execute) == outs[1..];
      ExpandPlain(outs[0], Groups(s, b));
      SubstituteSplices(s, b.End(), execute);
  }

  /** Whatever the outputs, a completed loop has called the interpreter
      once for every block, in text order. */
  lemma {:induction false} SubstituteCallsAll(s: string, from: nat, execute: (string, string) -> string)
    requires from <= |s|
    requires SubstituteFrom(s, from, execute).Substituted?
    ensures SubstituteFrom(s, from, execute).calls == CallsOf(s, Blocks(s, from))
    decreases |s| - from
  {
    match Find(s, from)
    case None =>
    case Some(b) =>
      var bs := Blocks(s, from);
      var rest := Blocks(s, b.End());
      assert bs == [b] + rest;
      assert bs[1..] == rest;
      var call := CallOf(s, b);
      assert CallsOf(s, bs) == [call] + CallsOf(s, rest);
      var rep := Expand(execute(call.interpreter, call.code), Groups(s, b)).value;
      var r' := SubstituteFrom(s, b.End(), execute);
      assert SubstituteFrom(s, from, execute) == Prefix(s[from..b.start] + rep, [call], r');
      SubstituteCallsAll(s, b.End(), execute);
  }

  /** When `appendReplacement` throws, the calls made are those of the
      blocks up to and including the failing one, in text order. */
  lemma {:induction false} SubstituteCallsThrew(s: string, from: nat, execute: (string, string) -> string)
    requires from <= |s|
    requires SubstituteFrom(s, from, execute).Threw?
    ensures 0 < |SubstituteFrom(s, from, execute).calls| <= |Blocks(s, from)|
    ensures SubstituteFrom(s, from, execute).calls == CallsOf(s, Blocks(s, from))[..|SubstituteFrom(s, from, execute).calls|]
    decreases |s| - from
  {
    match Find(s, from)
    case None =>
    case Some(b) =>
      var bs := Blocks(s, from);
      var rest := Blocks(s, b.End());
      assert bs == [b] + rest;
      assert bs[1..] == rest;
      var call := CallOf(s, b);
      var all := CallsOf(s, bs);
      assert all == [call] + CallsOf(s, rest);
      var r := SubstituteFrom(s, from, execute);
      match Expand(execute(call.interpreter, call.code), Groups(s, b))
      case None =>
        assert r == Threw([call]);
        assert all[..1] == [call];
      case Some(rep) =>
        var r' := SubstituteFrom(s, b.End(), execute);
        assert r == Prefix(s[from..b.start] + rep, [call], r');
        SubstituteCallsThrew(s, b.End(), execute);
        assert r.calls == [call] + r'.calls;
        ConsPrefix(call, CallsOf(s, rest), r'.calls);
  }

  lemma ConsPrefix(c: Call, cs: seq<Call>, p: seq<Call>)
    requires |p| <= |cs| && p == cs[..|p|]
    ensures [c] + p == ([c] + cs)[..|p| + 1]
  {
  }
}
