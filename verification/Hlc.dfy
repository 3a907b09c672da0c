/**
 * Hybrid-logical-clock timestamps as the strings `<time>/<node hex>` the store
 * keeps, and the tolerant numeric order in which they compete.
 */
module Hlc {
  import opened Common

  const TWO_POW_64: nat := 0x1_0000_0000_0000_0000
  const TWO_POW_128: nat := 0x1_0000_0000_0000_0000_0000_0000_0000_0000

  datatype Ordering = Less | Equal | Greater

  /** The position of the first '/', or the length if there is none. */
  function SlashAt(s: string): (i: nat)
    ensures i <= |s|
    ensures forall k | 0 <= k < i :: s[k] != '/'
    ensures i < |s| ==> s[i] == '/'
  {
    if s == "" || s[0] == '/' then 0 else 1 + SlashAt(s[1..])
  }

  function TimePart(s: string): string {
    s[..SlashAt(s)]
  }

  function NodePart(s: string): string {
    if SlashAt(s) < |s| then s[SlashAt(s) + 1..] else ""
  }

  /** Digits as Rust's integer parsers read them; upper- and lowercase hex. */
  function Digit(c: char, radix: nat): Option<nat> {
    var d :=
      if '0' <= c <= '9' then (c - '0') as int
      else if 'a' <= c <= 'f' then (c - 'a') as int + 10
      else if 'A' <= c <= 'F' then (c - 'A') as int + 10
      else 99;
    if d < radix then Some(d) else None
  }

  function ParseDigits(s: string, radix: nat): Option<nat> {
    if s == "" then Some(0)
    else
      match (ParseDigits(s[..|s| - 1], radix), Digit(s[|s| - 1], radix))
      case (Some(high), Some(low)) => Some(high * radix + low)
      case _ => None
  }

  /** Rust's unsigned `parse`/`from_str_radix`: one leading '+' is allowed, empty and overflow fail. */
  function ParseUnsigned(s: string, radix: nat, bound: nat): (r: Option<nat>)
    ensures r.Some? ==> r.value < bound
  {
    var digits := if |s| > 1 && s[0] == '+' then s[1..] else s;
    if digits == "" then None
    else
      match ParseDigits(digits, radix)
      case Some(n) => if n < bound then Some(n) else None
      case None => None
  }

  function Time(s: string): (t: nat)
    ensures t < TWO_POW_64
  {
    ParseUnsigned(TimePart(s), 10, TWO_POW_64).GetOr(0)
  }

  function Node(s: string): (n: nat)
    ensures n < TWO_POW_128
  {
    if NodePart(s) == "" then 0 else ParseUnsigned(NodePart(s), 16, TWO_POW_128).GetOr(0)
  }

  /** Time first, then node; whatever does not parse counts as zero. */
  function CompareHlc(a: string, b: string): Ordering {
    if Time(a) < Time(b) then Less
    else if Time(a) > Time(b) then Greater
    else if Node(a) < Node(b) then Less
    else if Node(a) > Node(b) then Greater
    else Equal
  }

  /** One number that carries the whole order. */
  function Rank(s: string): (r: nat) {
    Time(s) * TWO_POW_128 + Node(s)
  }

  predicate Newer(a: string, b: string)
    ensures Newer(a, b) <==> Rank(a) > Rank(b)
  {
    CompareHlc(a, b) == Greater
  }

  /** The full `<time>/<node>` shape, complete or not as a clock reading. */
  predicate IsComplete(s: string) {
    '/' in s
  }

  /** What the external timestamp parser accepts: both parts parse, the node is not zero-led. */
  predicate IsTimestamp(s: string) {
    && IsComplete(s)
    && ParseUnsigned(TimePart(s), 10, TWO_POW_64).Some?
    && ParseUnsigned(NodePart(s), 16, TWO_POW_128).Some?
    && NodePart(s)[0] != '0'
    && Node(s) > 0
  }

  function DigitChar(d: nat): char
    requires d < 16
  {
    if d < 10 then '0' + d as char else 'a' + (d - 10) as char
  }

  /** A number as the clock prints it: no leading zeros, lowercase digits. */
  function Printed(n: nat, radix: nat): string
    requires 2 <= radix <= 16
  {
    if n < radix then [DigitChar(n)] else Printed(n / radix, radix) + [DigitChar(n % radix)]
  }

  function PrintedTimestamp(time: nat, node: nat): string {
    Printed(time, 10) + "/" + Printed(node, 16)
  }

  lemma DigitInvertsPrint(d: nat, radix: nat)
    requires d < radix <= 16
    ensures Digit(DigitChar(d), radix) == Some(d) && DigitChar(d) != '/' && DigitChar(d) != '+' && (DigitChar(d) == '0' <==> d == 0)
  {
  }

  lemma ParseOneMore(s: string, c: char, radix: nat)
    requires ParseDigits(s, radix).Some? && Digit(c, radix).Some?
    ensures ParseDigits(s + [c], radix) == Some(ParseDigits(s, radix).value * radix + Digit(c, radix).value)
  {
    assert (s + [c])[..|s|] == s;
  }

  lemma QuotientAndRest(n: nat, radix: nat)
    requires radix == 10 || radix == 16
    ensures n == n / radix * radix + n % radix && n % radix < radix && (n >= radix ==> 0 < n / radix < n)
  {
  }

  lemma {:induction false} ParseInvertsPrint(n: nat, radix: nat)
    requires radix == 10 || radix == 16
    ensures ParseDigits(Printed(n, radix), radix) == Some(n)
    ensures Printed(n, radix) != "" && (forall c | c in Printed(n, radix) :: c != '/')
    ensures Printed(n, radix)[0] != '+' && (Printed(n, radix)[0] == '0' <==> n == 0)
    decreases n
  {
    hide Digit, DigitChar, ParseDigits;
    QuotientAndRest(n, radix);
    DigitInvertsPrint(n % radix, radix);
    assert ParseDigits("", radix) == Some(0) by {
      NoDigits(radix);
    }
    if n < radix {
      ParseOneMore("", DigitChar(n), radix);
      assert "" + [DigitChar(n)] == [DigitChar(n)];
    } else {
      ParseInvertsPrint(n / radix, radix);
      ParseOneMore(Printed(n / radix, radix), DigitChar(n % radix), radix);
    }
  }

  lemma NoDigits(radix: nat)
    ensures ParseDigits("", radix) == Some(0)
  {
  }

  lemma UnsignedInvertsPrint(n: nat, radix: nat, bound: nat)
    requires (radix == 10 || radix == 16) && n < bound
    ensures ParseUnsigned(Printed(n, radix), radix, bound) == Some(n)
  {
    hide Printed;
    ParseInvertsPrint(n, radix);
  }

  lemma {:induction false} SlashAfter(a: string, b: string)
    requires forall c | c in a :: c != '/'
    ensures SlashAt(a + "/" + b) == |a|
  {
    if a != "" {
      assert a[0] in a;
      assert (a + "/" + b)[1..] == a[1..] + "/" + b;
      assert forall c | c in a[1..] :: c in a;
      SlashAfter(a[1..], b);
    } else {
      assert a + "/" + b == "/" + b;
    }
  }

  /** What the clock prints is a timestamp and reads back as the same time and node. */
  lemma PrintedTimestampReadsBack(time: nat, node: nat)
    requires time < TWO_POW_64 && 0 < node < TWO_POW_128
    ensures var s := PrintedTimestamp(time, node); IsTimestamp(s) && Time(s) == time && Node(s) == node
  {
    hide Printed, ParseUnsigned;
    var a, b := Printed(time, 10), Printed(node, 16);
    var s := PrintedTimestamp(time, node);
    ParseInvertsPrint(time, 10);
    ParseInvertsPrint(node, 16);
    UnsignedInvertsPrint(time, 10, TWO_POW_64);
    UnsignedInvertsPrint(node, 16, TWO_POW_128);
    SlashAfter(a, b);
    assert s[|a|] == '/';
    assert TimePart(s) == a && NodePart(s) == b;
  }

  lemma TimestampsOutrankTheEmpty(s: string)
    requires IsTimestamp(s)
    ensures Rank(s) > 0
  {
  }

  /** A part that does not parse counts as zero, so a string without any parsable part ranks zero and loses to every timestamp. */
  lemma UnparsableLoses(junk: string, s: string)
    requires ParseUnsigned(TimePart(junk), 10, TWO_POW_64).None?
    requires NodePart(junk) == "" || ParseUnsigned(NodePart(junk), 16, TWO_POW_128).None?
    requires IsTimestamp(s)
    ensures Rank(junk) == 0 && Newer(s, junk)
  {
    TimestampsOutrankTheEmpty(s);
  }

  lemma LeastTimestamp()
    ensures IsTimestamp("0/1") && Rank("0/1") == 1
  {
    var s := "0/1";
    assert SlashAt(s) == 1 && TimePart(s) == "0" && NodePart(s) == "1";
    assert "0"[..0] == "" && "1"[..0] == "";
    assert ParseDigits("0", 10) == Some(0) && ParseDigits("1", 16) == Some(1);
    assert s[1] in s;
  }

  /** A string loses to every timestamp if and only if it ranks zero. */
  lemma LosesToAllIff(junk: string)
    ensures (forall s | IsTimestamp(s) :: Newer(s, junk)) <==> Rank(junk) == 0
  {
    hide IsTimestamp, Rank;
    LeastTimestamp();
    if Rank(junk) == 0 {
      forall s | IsTimestamp(s)
        ensures Newer(s, junk)
      {
        TimestampsOutrankTheEmpty(s);
      }
    } else {
      assert !Newer("0/1", junk);
    }
  }

  lemma EmptyRank()
    ensures Rank("") == 0
  {
  }
}
