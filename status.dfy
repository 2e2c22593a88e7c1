/**
 * `MachineStatus.getStatusHtml` (Project/src/MachineStatus.java): the page
 * served for `/status`. The figures the JVM reports (free memory, the free
 * space of each file-system root, the processor count) are inputs.
 */
module Status {
  import opened JavaLang

  /** What the runtime reports at the time of the request. */
  datatype Machine = Machine(freeMemory: int64, rootFreeSpace: seq<int64>, processors: int32)

  const Head: string := "<html><head><meta charset=\"UTF-8\"></head><body>"
  const Title: string := "<h1>État du serveur</h1>"
  const MemoryLabel: string := "<p>Mémoire disponible: "
  const SpaceLabel: string := "<p>Espace disque disponible: "
  const ProcessLabel: string := "<p>Nombre de processus: "
  const ConnectionLabel: string := "<p>Nombre de connexions actives: "
  const Tail: string := "</body></html>"

  /** The exact total of a sequence of numbers. */
  function Sum(xs: seq<int>): int {
    if xs == [] then 0 else Sum(xs[..|xs| - 1]) + xs[|xs| - 1]
  }

  /** The `long` accumulator after adding the roots' free space in order. */
  function FreeSpace(roots: seq<int64>): int64 {
    if roots == [] then 0 else Wrap64(FreeSpace(roots[..|roots| - 1]) + roots[|roots| - 1])
  }

  /** The accumulator holds the total reduced to a `long`; when the total
      fits in a `long` it holds the total itself. */
  lemma {:induction false} FreeSpaceTotal(roots: seq<int64>)
    ensures FreeSpace(roots) == Wrap64(Sum(roots))
    ensures LongMin <= Sum(roots) <= LongMax ==> FreeSpace(roots) == Sum(roots)
  {
    if roots != [] {
      var init := roots[..|roots| - 1];
      FreeSpaceTotal(init);
      Wrap64Add(Sum(init), roots[|roots| - 1]);
    }
  }

  /** The page `getStatusHtml` builds. */
  function StatusPage(connectionCount: int32, m: Machine): string {
    Head + Title
    + MemoryLabel + Decimal(m.freeMemory) + " bytes</p>"
    + SpaceLabel + Decimal(FreeSpace(m.rootFreeSpace)) + " bytes</p>"
    + ProcessLabel + Decimal(m.processors) + "</p>"
    + ConnectionLabel + Decimal(connectionCount) + "</p>"
    + Tail
  }

  /** Lines 24-44 of `getStatusHtml`: sums the free space over the roots in
      a loop, then appends the page piece by piece. */
  method GetStatusHtml(connectionCount: int32, m: Machine) returns (html: string)
    ensures html == StatusPage(connectionCount, m)
  {
    var freeMemory := m.freeMemory;
    var roots := m.rootFreeSpace;
    var freeSpace: int64 := 0;
    for i := 0 to |roots|
      invariant freeSpace == FreeSpace(roots[..i])
    {
      assert roots[..i + 1][..i] == roots[..i];
      freeSpace := Wrap64(freeSpace + roots[i]);
    }
    assert roots[..|roots|] == roots;
    var processCount := m.processors;

    html := [];
    html := html + Head;
    assert html == Head;
    html := html + Title;
    html := html + MemoryLabel + Decimal(freeMemory) + " bytes</p>";
    html := html + SpaceLabel + Decimal(freeSpace) + " bytes</p>";
    html := html + ProcessLabel + Decimal(processCount) + "</p>";
    html := html + ConnectionLabel + Decimal(connectionCount) + "</p>";
    html := html + Tail;
  }

  // ---------------------------------------------------------------------
  // Reading the connection count back
  // ---------------------------------------------------------------------

  predicate IsNumberChar(c: char) {
    IsDigit(c) || c == '-'
  }

  lemma DecimalChars(n: int)
    ensures forall i :: 0 <= i < |Decimal(n)| ==> IsNumberChar(Decimal(n)[i])
  {
    var d := Decimal(n);
    forall i | 0 <= i < |d| ensures IsNumberChar(d[i]) {
      if n < 0 && i > 0 {
        assert d[i] == Digits(-n)[i - 1];
      }
    }
  }

  /** The longest run of digits and minus signs at the end of a text. */
  function TrailingNumber(s: string): (r: string)
    ensures |r| <= |s| && r == s[|s| - |r|..]
    ensures forall i :: 0 <= i < |r| ==> IsNumberChar(r[i])
    ensures |r| == |s| || !IsNumberChar(s[|s| - |r| - 1])
  {
    if s == [] || !IsNumberChar(s[|s| - 1]) then []
    else TrailingNumber(s[..|s| - 1]) + [s[|s| - 1]]
  }

  lemma {:induction false} TrailingNumberAfter(p: string, d: string)
    requires p != [] && !IsNumberChar(p[|p| - 1])
    requires forall i :: 0 <= i < |d| ==> IsNumberChar(d[i])
    ensures TrailingNumber(p + d) == d
  {
    if d != [] {
      var init := d[..|d| - 1];
      TrailingNumberAfter(p, init);
      assert (p + d)[..|p + d| - 1] == p + init;
      assert d == init + [d[|d| - 1]];
    }
  }

  /** What a reader of the page finds as the number of active connections:
      the number closing the last paragraph. */
  function ReadConnectionCount(page: string): Option<int32> {
    var end := "</p>" + Tail;
    if |page| < |end| || page[|page| - |end|..] != end then None
    else ParseInt(TrailingNumber(page[..|page| - |end|]))
  }

  /** The page reports the counter value it was given, whatever the
      machine figures are. */
  lemma ConnectionCountRoundTrip(connectionCount: int32, m: Machine)
    ensures ReadConnectionCount(StatusPage(connectionCount, m)) == Some(connectionCount)
  {
    var d := Decimal(connectionCount);
    var end := "</p>" + Tail;
    var p := Head + Title
      + MemoryLabel + Decimal(m.freeMemory) + " bytes</p>"
      + SpaceLabel + Decimal(FreeSpace(m.rootFreeSpace)) + " bytes</p>"
      + ProcessLabel + Decimal(m.processors) + "</p>"
      + ConnectionLabel;
    var page := StatusPage(connectionCount, m);
    assert page == p + d + end;
    assert page[|page| - |end|..] == end;
    assert page[..|page| - |end|] == p + d;
    assert p[|p| - 1] == ' ';
    DecimalChars(connectionCount);
    TrailingNumberAfter(p, d);
    ParseDecimal(connectionCount);
  }

  /** Two pages that differ only in the counter differ. */
  lemma StatusPageInjective(c1: int32, c2: int32, m: Machine)
    requires StatusPage(c1, m) == StatusPage(c2, m)
    ensures c1 == c2
  {
    ConnectionCountRoundTrip(c1, m);
    ConnectionCountRoundTrip(c2, m);
  }
}
