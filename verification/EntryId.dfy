/** Entry IDs in file handles for NFS (FhgfsOpsExport.c): an ID string consists of three hexadecimal
    numbers and travels in a handle as three 32-bit values; the root directory has an ID of its own. */
module EntryId {
  import opened Basics

  const ROOT_ID := "root"
  const WORD := 0x1_0000_0000   // values are 32 bits wide

  /** The three components of an ID. */
  datatype Triple = Triple(counter: nat, timestamp: nat, nodeId: nat) {
    predicate Fits() {
      counter < WORD && timestamp < WORD && nodeId < WORD
    }
  }

  const ROOT := Triple(0, 0, 0)

  // ----- printing -----

  function Digit(d: nat): char
    requires d < 16
  {
    if d < 10 then '0' + d as char else 'A' + (d - 10) as char
  }

  /** The %X conversion. */
  function Hex(n: nat): string {
    if n < 16 then [Digit(n)] else Hex(n / 16) + [Digit(n % 16)]
  }

  function Joined(a: string, b: string, c: string): string {
    a + "-" + b + "-" + c
  }

  /** entryIDFromNfsHandle */
  function Print(t: Triple): string {
    if t == ROOT then ROOT_ID else Joined(Hex(t.counter), Hex(t.timestamp), Hex(t.nodeId))
  }

  // ----- parsing -----

  predicate IsHexDigit(c: char) {
    '0' <= c <= '9' || 'a' <= c <= 'f' || 'A' <= c <= 'F'
  }

  function DigitValue(c: char): (d: nat)
    ensures d < 16
  {
    if '0' <= c <= '9' then (c - '0') as nat
    else if 'A' <= c <= 'F' then (c - 'A') as nat + 10
    else if 'a' <= c <= 'f' then (c - 'a') as nat + 10
    else 0
  }

  /** The number written by the digits from i up to e. */
  function Value(s: string, i: nat, e: nat): nat
    requires i <= e <= |s|
    decreases e
  {
    if i == e then 0 else 16 * Value(s, i, e - 1) + DigitValue(s[e - 1])
  }

  function GroupValue(g: string): nat {
    Value(g, 0, |g|)
  }

  lemma {:induction false} ValueInside(s: string, off: nat, g: string, n: nat)
    requires n <= |g| && off + |g| <= |s|
    requires forall k :: 0 <= k < |g| ==> s[off + k] == g[k]
    ensures Value(s, off, off + n) == Value(g, 0, n)
  {
    if n > 0 {
      ValueInside(s, off, g, n - 1);
    }
  }

  predicate IsSpace(c: char) {
    c == ' ' || '\t' <= c <= '\r'
  }

  function SkipSpaces(s: string, i: nat): (j: nat)
    requires i <= |s|
    ensures i <= j <= |s|
    decreases |s| - i
  {
    if i < |s| && IsSpace(s[i]) then SkipSpaces(s, i + 1) else i
  }

  function DigitsEnd(s: string, i: nat): (j: nat)
    requires i <= |s|
    ensures i <= j <= |s| && forall k :: i <= k < j ==> IsHexDigit(s[k])
    decreases |s| - i
  {
    if i < |s| && IsHexDigit(s[i]) then DigitsEnd(s, i + 1) else i
  }

  datatype Scanned = Scanned(value: nat, next: nat)

  /** One %X conversion of the kernel's sscanf: leading blanks and a 0x prefix are accepted, and a number
      that is too large keeps its low 32 bits. */
  function ScanHex(s: string, i: nat): (r: Option<Scanned>)
    requires i <= |s|
    ensures r.Some? ==> r.value.next <= |s| && r.value.value < WORD
  {
    var j := SkipSpaces(s, i);
    if j == |s| || !IsHexDigit(s[j]) then None
    else
      var k := if s[j] == '0' && j + 1 < |s| && (s[j + 1] == 'x' || s[j + 1] == 'X') then j + 2 else j;
      var e := DigitsEnd(s, k);
      Some(Scanned(Value(s, k, e) % WORD, e))
  }

  function ScanDashHex(s: string, i: nat): (r: Option<Scanned>)
    requires i <= |s|
    ensures r.Some? ==> r.value.next <= |s| && r.value.value < WORD
  {
    if i < |s| && s[i] == '-' then ScanHex(s, i + 1) else None
  }

  function First(s: string): (r: Option<Scanned>)
    ensures r.Some? ==> r.value.next <= |s| && r.value.value < WORD
  {
    ScanHex(s, 0)
  }

  function Second(s: string): (r: Option<Scanned>)
    ensures r.Some? ==> First(s).Some? && r.value.next <= |s| && r.value.value < WORD
  {
    var a := First(s);
    if a.None? then None else ScanDashHex(s, a.value.next)
  }

  function Third(s: string): (r: Option<Scanned>)
    ensures r.Some? ==> Second(s).Some? && r.value.next <= |s| && r.value.value < WORD
  {
    var b := Second(s);
    if b.None? then None else ScanDashHex(s, b.value.next)
  }

  /** parseEntryIDForNfsHandle */
  function Parse(s: string): (r: Option<Triple>)
    ensures r.Some? ==> r.value.Fits()
  {
    if s == ROOT_ID then Some(ROOT)
    else if Third(s).None? then None
    else Some(Triple(First(s).value.value, Second(s).value.value, Third(s).value.value))
  }

  // ----- groups of digits -----

  /** A number as %X writes it: upper case, no leading zero, at most eight digits. */
  predicate Group(g: string) {
    && 1 <= |g| <= 8
    && (forall i :: 0 <= i < |g| ==> IsHexDigit(g[i]) && g[i] <= 'F')
    && (|g| > 1 ==> g[0] != '0')
  }

  function Pow16(n: nat): nat {
    if n == 0 then 1 else 16 * Pow16(n - 1)
  }

  lemma {:induction false} HexDigits(n: nat)
    ensures Hex(n) != []
    ensures forall i :: 0 <= i < |Hex(n)| ==> IsHexDigit(Hex(n)[i]) && Hex(n)[i] <= 'F'
    ensures n > 0 ==> Hex(n)[0] != '0'
    ensures n > 0 ==> Pow16(|Hex(n)| - 1) <= n
  {
    if n >= 16 {
      HexDigits(n / 16);
    }
  }

  lemma {:induction false} HexValue(n: nat)
    ensures GroupValue(Hex(n)) == n
  {
    var h := Hex(n);
    if n < 16 {
      assert Value(h, 0, 0) == 0;
    } else {
      var front := Hex(n / 16);
      HexValue(n / 16);
      ValueInside(h, 0, front, |front|);
      assert Value(h, 0, |h| - 1) == n / 16;
    }
  }

  lemma {:induction false} PowMonotone(m: nat, n: nat)
    requires m <= n
    ensures Pow16(m) <= Pow16(n)
  {
    if m < n {
      PowMonotone(m, n - 1);
    }
  }

  lemma EightDigits()
    ensures Pow16(8) == WORD
  {
    assert Pow16(2) == 256;
    assert Pow16(4) == 65536;
    assert Pow16(6) == 16777216;
  }

  /** What %X prints for a 32-bit value is a group. */
  lemma HexIsGroup(n: nat)
    requires n < WORD
    ensures Group(Hex(n)) && GroupValue(Hex(n)) == n
  {
    HexDigits(n);
    HexValue(n);
    EightDigits();
    if |Hex(n)| > 8 {
      PowMonotone(8, |Hex(n)| - 1);
      assert false;
    }
  }

  lemma {:induction false} ValueBound(g: string, n: nat)
    requires n <= |g|
    ensures Value(g, 0, n) < Pow16(n)
  {
    if n > 0 {
      ValueBound(g, n - 1);
    }
  }

  lemma DigitOfValue(c: char)
    requires IsHexDigit(c) && c <= 'F'
    ensures Digit(DigitValue(c)) == c
  {
  }

  lemma ValueFits(g: string)
    requires Group(g)
    ensures GroupValue(g) < WORD && GroupValue(g) % WORD == GroupValue(g)
  {
    EightDigits();
    ValueBound(g, |g|);
    PowMonotone(|g|, 8);
  }

  lemma HexStep(front: nat, last: nat)
    requires 0 < front && last < 16
    ensures Hex(16 * front + last) == Hex(front) + [Digit(last)]
  {
    var n := 16 * front + last;
    assert n / 16 == front && n % 16 == last;
  }

  lemma GroupFront(g: string, front: string)
    requires Group(g) && |g| > 1 && front == g[..|g| - 1]
    ensures Group(front) && front[0] == g[0] && front[0] != '0'
    ensures GroupValue(g) == 16 * GroupValue(front) + DigitValue(g[|g| - 1])
  {
    ValueInside(g, 0, front, |front|);
  }

  lemma OneDigit(g: string)
    requires Group(g) && |g| == 1
    ensures GroupValue(g) == DigitValue(g[0]) && Hex(GroupValue(g)) == g
    ensures g[0] != '0' ==> GroupValue(g) > 0
  {
    assert Value(g, 0, 0) == 0;
    DigitOfValue(g[0]);
  }

  /** Printing the value of a group gives the group back. */
  lemma {:induction false} HexOfValue(g: string)
    requires Group(g)
    ensures Hex(GroupValue(g)) == g
    ensures g[0] != '0' ==> GroupValue(g) > 0
  {
    if |g| == 1 {
      OneDigit(g);
    } else {
      var front, last := g[..|g| - 1], g[|g| - 1];
      GroupFront(g, front);
      HexOfValue(front);
      DigitOfValue(last);
      HexStep(GroupValue(front), DigitValue(last));
      assert g == front + [last];
    }
  }

  // ----- scanning what was printed -----

  lemma {:induction false} DigitsEndAt(s: string, i: nat, e: nat)
    requires i <= e <= |s|
    requires forall k :: i <= k < e ==> IsHexDigit(s[k])
    requires e == |s| || !IsHexDigit(s[e])
    ensures DigitsEnd(s, i) == e
    decreases e - i
  {
    if i < e {
      DigitsEndAt(s, i + 1, e);
    }
  }

  lemma GroupInside(s: string, i: nat, g: string)
    requires Group(g) && i + |g| <= |s| && s[i..i + |g|] == g
    requires i + |g| == |s| || s[i + |g|] == '-'
    ensures IsHexDigit(s[i]) && SkipSpaces(s, i) == i
    ensures s[i] == '0' && i + 1 < |s| ==> s[i + 1] == '-'
    ensures DigitsEnd(s, i) == i + |g|
  {
    assert s[i] == g[0];
    forall k | i <= k < i + |g| ensures IsHexDigit(s[k]) {
      assert s[k] == g[k - i];
    }
    DigitsEndAt(s, i, i + |g|);
  }

  lemma ScanGroup(s: string, i: nat, g: string)
    requires Group(g) && i + |g| <= |s| && s[i..i + |g|] == g
    requires i + |g| == |s| || s[i + |g|] == '-'
    ensures ScanHex(s, i) == Some(Scanned(GroupValue(g), i + |g|))
  {
    GroupInside(s, i, g);
    ValueInside(s, i, g, |g|);
    ValueFits(g);
  }

  lemma ScanDashGroup(s: string, a: string, g: string, rest: string)
    requires Group(g) && s == a + ("-" + g + rest) && (rest == [] || rest[0] == '-')
    ensures |a| <= |s| && ScanDashHex(s, |a|) == Some(Scanned(GroupValue(g), |a| + 1 + |g|))
  {
    assert s[|a|] == '-' && s[|a| + 1..|a| + 1 + |g|] == g;
    assert rest != [] ==> s[|a| + 1 + |g|] == rest[0];
    ScanGroup(s, |a| + 1, g);
  }

  lemma ScanFirst(s: string, a: string, rest: string)
    requires Group(a) && s == a + rest && rest != [] && rest[0] == '-'
    ensures First(s) == Some(Scanned(GroupValue(a), |a|))
  {
    assert s[0..|a|] == a && s[|a|] == '-';
    ScanGroup(s, 0, a);
  }

  lemma ScanSecond(s: string, a: string, b: string, c: string)
    requires Group(a) && Group(b) && s == Joined(a, b, c)
    ensures First(s) == Some(Scanned(GroupValue(a), |a|))
    ensures Second(s) == Some(Scanned(GroupValue(b), |a| + 1 + |b|))
  {
    assert s == a + ("-" + b + ("-" + c));
    ScanFirst(s, a, "-" + b + ("-" + c));
    ScanDashGroup(s, a, b, "-" + c);
  }

  lemma LastPart(s: string, a: string, b: string, c: string, i: nat)
    requires s == Joined(a, b, c) && i == |a| + 1 + |b|
    ensures |s| == i + 1 + |c| && s[i] == '-' && s[i + 1..|s|] == c
  {
  }

  lemma ScanThird(s: string, i: nat, c: string)
    requires Second(s).Some? && Second(s).value.next == i
    requires Group(c) && |s| == i + 1 + |c| && s[i] == '-' && s[i + 1..|s|] == c
    ensures Third(s) == Some(Scanned(GroupValue(c), |s|))
  {
    ScanGroup(s, i + 1, c);
  }

  lemma NotRoot(s: string, a: string, b: string, c: string)
    requires Group(a) && s == Joined(a, b, c)
    ensures s != ROOT_ID
  {
    assert s[0] == a[0] && IsHexDigit(a[0]);
    assert ROOT_ID[0] == 'r';
  }

  /** The parser reads three groups. */
  lemma ParseGroups(s: string, a: string, b: string, c: string)
    requires Group(a) && Group(b) && Group(c) && s == Joined(a, b, c)
    ensures Parse(s) == Some(Triple(GroupValue(a), GroupValue(b), GroupValue(c)))
  {
    NotRoot(s, a, b, c);
    ScanSecond(s, a, b, c);
    LastPart(s, a, b, c, |a| + 1 + |b|);
    ScanThird(s, |a| + 1 + |b|, c);
  }

  /** Every handle leads back to itself through the ID it stands for. */
  lemma ParsePrint(t: Triple)
    requires t.Fits()
    ensures Parse(Print(t)) == Some(t)
  {
    if t != ROOT {
      HexIsGroup(t.counter);
      HexIsGroup(t.timestamp);
      HexIsGroup(t.nodeId);
      ParseGroups(Print(t), Hex(t.counter), Hex(t.timestamp), Hex(t.nodeId));
    }
  }

  // ----- IDs -----

  ghost predicate ThreeGroups(s: string, a: string, b: string, c: string) {
    Group(a) && Group(b) && Group(c) && s == Joined(a, b, c)
  }

  /** The IDs that metadata servers create, except one that looks like the components of the root. */
  ghost predicate Canonical(s: string) {
    s == ROOT_ID || (s != "0-0-0" && exists a, b, c :: ThreeGroups(s, a, b, c))
  }

  lemma PrintIsCanonical(t: Triple)
    requires t.Fits()
    ensures Canonical(Print(t))
  {
    if t != ROOT {
      HexIsGroup(t.counter);
      HexIsGroup(t.timestamp);
      HexIsGroup(t.nodeId);
      var a, b, c := Hex(t.counter), Hex(t.timestamp), Hex(t.nodeId);
      assert ThreeGroups(Print(t), a, b, c);
      if Print(t) == "0-0-0" {
        ParsePrint(t);
        ZerosParseAsRoot();
      }
    }
  }

  lemma GroupsSurvive(s: string, a: string, b: string, c: string)
    requires ThreeGroups(s, a, b, c) && s != "0-0-0"
    ensures Parse(s).Some? && Print(Parse(s).value) == s
  {
    ParseGroups(s, a, b, c);
    HexOfValue(a);
    HexOfValue(b);
    HexOfValue(c);
  }

  /** An ID survives the way through a handle exactly if it is canonical. */
  lemma RoundTripIff(s: string)
    ensures Canonical(s) <==> Parse(s).Some? && Print(Parse(s).value) == s
  {
    if Canonical(s) && s != ROOT_ID {
      var a, b, c :| ThreeGroups(s, a, b, c);
      GroupsSurvive(s, a, b, c);
    } else if Parse(s).Some? && Print(Parse(s).value) == s {
      PrintIsCanonical(Parse(s).value);
    }
  }

  /** The one ID of three groups that does not survive: it becomes the root directory. */
  lemma ZerosParseAsRoot()
    ensures Parse("0-0-0") == Some(ROOT) && Print(ROOT) != "0-0-0"
  {
    assert Group("0") && Joined("0", "0", "0") == "0-0-0";
    assert GroupValue("0") == 0;
    ParseGroups("0-0-0", "0", "0", "0");
    assert |ROOT_ID| == 4 && |"0-0-0"| == 5;
  }

  /** Different handles stand for different IDs. */
  lemma PrintInjective(t: Triple, u: Triple)
    requires t.Fits() && u.Fits() && Print(t) == Print(u)
    ensures t == u
  {
    ParsePrint(t);
    ParsePrint(u);
  }

  /** An ID has at most 26 characters, and some have that many. */
  lemma PrintLength(t: Triple)
    requires t.Fits()
    ensures |Print(t)| <= 26
    ensures |Print(t)| == 26 <==>
      t.counter >= 0x1000_0000 && t.timestamp >= 0x1000_0000 && t.nodeId >= 0x1000_0000
  {
    HexLength(t.counter);
    HexLength(t.timestamp);
    HexLength(t.nodeId);
  }

  lemma HexLength(n: nat)
    requires n < WORD
    ensures 1 <= |Hex(n)| <= 8
    ensures |Hex(n)| == 8 <==> n >= 0x1000_0000
  {
    HexIsGroup(n);
    HexDigits(n);
    EightDigits();
    ValueBound(Hex(n), |Hex(n)|);
    assert Pow16(8) == 16 * Pow16(7);
    if |Hex(n)| < 8 {
      PowMonotone(|Hex(n)|, 7);
    }
  }
}
