/** Domain association records, and the string operations their readers use. */
module DomainRecords {
  import opened Common

  datatype AddressTag = Program | Mint | Address

  datatype Source = DnsTxt | WellKnown

  datatype Record = Record(
    source: Source,
    raw: string,
    addressTag: Option<AddressTag>,
    address: Option<string>,
    allow: Option<bool>,
    deny: Option<bool>,
    network: Option<string>,
    denyAll: bool)

  // The Unicode White_Space property.
  predicate Ws(c: char) {
    var n := c as int;
    9 <= n <= 13 || n == 32 || n == 0x85 || n == 0xa0 || n == 0x1680 || 0x2000 <= n <= 0x200a
    || n == 0x2028 || n == 0x2029 || n == 0x202f || n == 0x205f || n == 0x3000
  }

  function ToLowerAscii(s: string): (l: string)
    ensures |l| == |s|
  {
    seq(|s|, i requires 0 <= i < |s| => if 'A' <= s[i] <= 'Z' then ((s[i] as int) + 32) as char else s[i])
  }

  predicate EqIgnoreAsciiCase(a: string, b: string) {
    ToLowerAscii(a) == ToLowerAscii(b)
  }

  // Whether x occurs in s.
  predicate Contains(s: string, x: string) {
    x <= s || (s != "" && Contains(s[1..], x))
  }

  function TrimStart(s: string): string {
    if s != "" && Ws(s[0]) then TrimStart(s[1..]) else s
  }

  function TrimEnd(s: string): string {
    if s != "" && Ws(s[|s| - 1]) then TrimEnd(s[..|s| - 1]) else s
  }

  function Trim(s: string): string {
    TrimEnd(TrimStart(s))
  }
}
