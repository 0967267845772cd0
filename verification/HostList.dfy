/** The comma separated list of hosts in a data source, each with an optional port. */
module HostList {

  import opened Wrappers
  import opened Text

  datatype HostDetail = HostDetail(name: string, port: int)

  // ----- reading a port

  predicate IsSpace(c: char) {
    c == ' ' || 9 as char <= c <= 13 as char
  }

  function SkipSpaces(s: string): string {
    if s != "" && IsSpace(s[0]) then SkipSpaces(s[1..]) else s
  }

  function LeadingDigits(s: string): (digits: string)
    ensures forall c | c in digits :: IsDigit(c)
  {
    if s != "" && IsDigit(s[0]) then [s[0]] + LeadingDigits(s[1..]) else ""
  }

  /** atol: spaces, a sign, digits, and whatever follows is ignored; 0 when there is no number. */
  function Atol(s: string): int {
    var t := SkipSpaces(s);
    if t != "" && t[0] == '-' then 0 - Value(LeadingDigits(t[1..]))
    else if t != "" && t[0] == '+' then Value(LeadingDigits(t[1..]))
    else Value(LeadingDigits(t))
  }

  lemma {:induction false} AllDigits(s: string)
    requires forall c | c in s :: IsDigit(c)
    ensures LeadingDigits(s) == s
  {
    if s != "" {
      assert s[0] in s;
      AllDigits(s[1..]);
    }
  }

  lemma AtolOfDecimal(n: nat)
    ensures Atol(Decimal(n)) == n
  {
    DecimalRoundTrip(n);
    assert Decimal(n)[0] in Decimal(n);
    AllDigits(Decimal(n));
  }

  lemma {:induction false} SkipsSpaces(spaces: string, rest: string)
    requires (forall c | c in spaces :: IsSpace(c)) && (rest == "" || !IsSpace(rest[0]))
    ensures SkipSpaces(spaces + rest) == rest
  {
    if spaces == "" {
      assert spaces + rest == rest;
    } else {
      assert spaces[0] in spaces && (spaces + rest)[1..] == spaces[1..] + rest;
      assert forall c | c in spaces[1..] :: c in spaces;
      SkipsSpaces(spaces[1..], rest);
    }
  }

  lemma {:induction false} DigitsBefore(digits: string, rest: string)
    requires (forall c | c in digits :: IsDigit(c)) && (rest == "" || !IsDigit(rest[0]))
    ensures LeadingDigits(digits + rest) == digits
  {
    if digits == "" {
      assert digits + rest == rest;
    } else {
      assert digits[0] in digits && (digits + rest)[1..] == digits[1..] + rest;
      assert forall c | c in digits[1..] :: c in digits;
      DigitsBefore(digits[1..], rest);
    }
  }

  /**
   A port text is read as the number in it, behind any white space and one sign and before anything that is no digit. It
   is rejected exactly when the number is above 65535 or below zero.
   */
  lemma PortIsRead(spaces: string, sign: string, n: nat, rest: string)
    requires forall c | c in spaces :: c == ' ' || c == '\t' || c == '\n' || c as int == 11 || c as int == 12 || c == '\r'
    requires sign == "" || sign == "+" || sign == "-"
    requires rest == "" || !('0' <= rest[0] <= '9')
    ensures Atol(spaces + sign + Decimal(n) + rest) == if sign == "-" then 0 - n else n
    ensures PortRejected(spaces + sign + Decimal(n) + rest) <==> if sign == "-" then n > 0 else n > 65535
  {
    var digits := Decimal(n);
    DecimalRoundTrip(n);
    assert digits[0] in digits;
    var number := sign + (digits + rest);
    RegroupAll(spaces, sign, digits, rest);
    Regroup(sign, digits, rest);
    assert forall c | c in spaces :: IsSpace(c);
    SkipsSpaces(spaces, number);
    DigitsBefore(digits, rest);
    if sign == "" {
      assert number == digits + rest;
    } else {
      assert number[1..] == digits + rest;
    }
  }

  // ----- what the list means

  function Split(s: string): seq<string> {
    var i := IndexOf(s, ',');
    if i >= |s| then [s] else [s[..i]] + Split(s[i + 1..])
  }

  predicate PortRejected(text: string) {
    (Atol(text) == 0 && text == "") || Atol(text) > 65535 || Atol(text) < 0
  }

  predicate Rejected(item: string) {
    var i := IndexOf(item, ':');
    i < |item| && PortRejected(item[i + 1..])
  }

  /** One item: the name ends at the first colon, everything after it is the port text. */
  function Item(item: string, defaultPort: int): HostDetail {
    var i := IndexOf(item, ':');
    if i < |item| then HostDetail(item[..i], Atol(item[i + 1..])) else HostDetail(item, defaultPort)
  }

  function Items(items: seq<string>, defaultPort: int): seq<HostDetail> {
    if items == [] then [] else [Item(items[0], defaultPort)] + Items(items[1..], defaultPort)
  }

  predicate SomeRejected(items: seq<string>) {
    items != [] && (Rejected(items[0]) || SomeRejected(items[1..]))
  }

  /** The list is accepted exactly when each item names no port or one from 0 to 65535. */
  lemma {:induction false} AcceptedExactlyWhen(items: seq<string>)
    ensures !SomeRejected(items) <==> forall item | item in items :: !Rejected(item)
  {
    if items != [] {
      AcceptedExactlyWhen(items[1..]);
      assert items == [items[0]] + items[1..];
    }
  }

  /** The items are the pieces between the commas: they hold none, and joined by commas they are the text again. */
  lemma {:induction false} SplitIsExact(s: string)
    ensures Split(s) != [] && Join(Split(s), ",") == s
    ensures forall item | item in Split(s) :: ',' !in item
    decreases |s|
  {
    var i := IndexOf(s, ',');
    FirstIndex(s, ',');
    if i < |s| {
      SplitIsExact(s[i + 1..]);
      JoinCons(s[..i], Split(s[i + 1..]), ",");
      assert s == s[..i] + "," + s[i + 1..];
    } else {
      assert s[..i] == s;
    }
  }

  /** A name alone takes the default port and is never rejected; behind the first colon everything is the port text. */
  lemma ItemParts(name: string, text: string, defaultPort: int)
    requires ':' !in name
    ensures Item(name, defaultPort) == HostDetail(name, defaultPort) && !Rejected(name)
    ensures Item(name + ":" + text, defaultPort) == HostDetail(name, Atol(text))
    ensures Rejected(name + ":" + text) <==> PortRejected(text)
  {
    var item := name + ":" + text;
    assert name[..|name|] == name && item[..|name|] == name && item[|name| + 1..] == text;
    IndexIs(name, ':', |name|);
    IndexIs(item, ':', |name|);
  }

  lemma {:induction false} ItemsAt(items: seq<string>, defaultPort: int, k: nat)
    requires k < |items|
    ensures |Items(items, defaultPort)| == |items| && Items(items, defaultPort)[k] == Item(items[k], defaultPort)
  {
    if |items| > 1 {
      ItemsAt(items[1..], defaultPort, if k == 0 then 0 else k - 1);
    }
  }

  // ----- the parser

  /** The first position from `from` on at which one of two characters stands, or the length. */
  method FindFirstOf(s: string, c: char, d: char, from: nat) returns (i: nat)
    requires from <= |s|
    ensures from <= i <= |s|
    ensures c !in s[from..i] && d !in s[from..i]
    ensures i < |s| ==> s[i] == c || s[i] == d
  {
    i := from;
    while i < |s| && s[i] != c && s[i] != d
      invariant from <= i <= |s|
      invariant c !in s[from..i] && d !in s[from..i]
    {
      assert s[from..i + 1] == s[from..i] + [s[i]];
      i := i + 1;
    }
  }

  /** What remains to be read from a position on: nothing past the end of the last item. */
  ghost function Rest(s: string, start: nat): seq<string> {
    if start <= |s| then Split(s[start..]) else []
  }

  /** What the positions found by the parser say about the first item of the remaining text. */
  lemma CutAt(s: string, start: nat, colon: nat, end: nat, defaultPort: int)
    requires start <= colon <= end <= |s|
    requires ',' !in s[start..colon] && ':' !in s[start..colon]
    requires colon < end ==> s[colon] == ':' && ',' !in s[colon + 1..end]
    requires end < |s| ==> s[end] == ','
    ensures Rest(s, start) == [s[start..end]] + Rest(s, end + 1)
    ensures Rejected(s[start..end]) <==> colon < end && PortRejected(s[colon + 1..end])
    ensures Item(s[start..end], defaultPort) ==
            HostDetail(s[start..colon], if colon < end then Atol(s[colon + 1..end]) else defaultPort)
  {
    var rest := s[start..];
    assert rest[..end - start] == s[start..end];
    if colon < end {
      assert s[start..end] == s[start..colon] + [':'] + s[colon + 1..end];
      assert s[start..end][colon - start + 1..] == s[colon + 1..end];
    }
    IndexIs(rest, ',', end - start);
    IndexIs(s[start..end], ':', colon - start);
    assert s[start..end][..colon - start] == s[start..colon];
    if end < |s| {
      assert rest[end - start + 1..] == s[end + 1..];
    } else {
      assert rest == s[start..end] && Rest(s, end + 1) == [];
    }
  }

  /** One round of the parser: where the item at `start` ends and what it says, or None for a rejected port. */
  method ParseItem(s: string, start: nat, defaultPort: int) returns (detail: Option<HostDetail>, end: nat)
    requires start <= |s|
    ensures start <= end <= |s|
    ensures Rest(s, start) == [s[start..end]] + Rest(s, end + 1)
    ensures detail == if Rejected(s[start..end]) then None else Some(Item(s[start..end], defaultPort))
  {
    var colon := FindFirstOf(s, ',', ':', start);
    var hasPort := colon < |s| && s[colon] == ':';
    end := colon;
    if hasPort {
      end := FindFirstOf(s, ',', ',', colon + 1);
    }
    CutAt(s, start, colon, end, defaultPort);
    detail := Some(HostDetail(s[start..colon], defaultPort));
    if hasPort {
      var portText := s[colon + 1..end];
      var val := Atol(portText);
      if (val == 0 && portText == "") || val > 65535 || val < 0 {
        detail := None;
      } else {
        detail := Some(HostDetail(s[start..colon], val));
      }
    }
  }

  /** What the parser makes of the items of a text. */
  function Parsed(items: seq<string>, defaultPort: int, text: string): Result<seq<HostDetail>, string> {
    if SomeRejected(items) then Err("Invalid port value in " + text) else Ok(Items(items, defaultPort))
  }

  /** The items read so far and those still to be read make up the answer. */
  predicate Continues(answer: Result<seq<HostDetail>, string>, list: seq<HostDetail>, rest: seq<string>, defaultPort: int,
                      text: string)
  {
    answer == if SomeRejected(rest) then Err("Invalid port value in " + text) else Ok(list + Items(rest, defaultPort))
  }

  lemma FirstItem(item: string, rest: seq<string>, defaultPort: int)
    ensures SomeRejected([item] + rest) <==> Rejected(item) || SomeRejected(rest)
    ensures Items([item] + rest, defaultPort) == [Item(item, defaultPort)] + Items(rest, defaultPort)
  {
    assert ([item] + rest)[1..] == rest;
  }

  lemma FirstOfRest(answer: Result<seq<HostDetail>, string>, list: seq<HostDetail>, item: string, rest: seq<string>,
                    defaultPort: int, text: string)
    requires Continues(answer, list, [item] + rest, defaultPort, text)
    ensures if Rejected(item) then answer == Err("Invalid port value in " + text)
            else Continues(answer, list + [Item(item, defaultPort)], rest, defaultPort, text)
  {
    FirstItem(item, rest, defaultPort);
    Regroup(list, [Item(item, defaultPort)], Items(rest, defaultPort));
  }

  function OrEmpty(s: Option<string>): string {
    if s.None? then "" else s.value
  }

  /**
   The parser reads the list exactly as split at the commas and each item cut at its first colon; it fails, naming the
   whole text, exactly when some item's port is rejected. The loop ends on every input, each round moving forward.
   */
  method ParseHostList(text: Option<string>, defaultPort: int) returns (r: Result<seq<HostDetail>, string>)
    ensures r == Parsed(Split(OrEmpty(text)), defaultPort, OrEmpty(text))
  {
    var s := OrEmpty(text);
    ghost var answer := Parsed(Split(s), defaultPort, s);
    var list := [];
    var start := 0;
    assert s[0..] == s && list + Items(Split(s), defaultPort) == Items(Split(s), defaultPort);
    while start <= |s|
      invariant 0 <= start <= |s| + 1
      invariant Continues(answer, list, Rest(s, start), defaultPort, s)
    {
      var detail, end := ParseItem(s, start, defaultPort);
      FirstOfRest(answer, list, s[start..end], Rest(s, end + 1), defaultPort, s);
      if detail.None? {
        return Err("Invalid port value in " + s);
      }
      list := list + [detail.value];
      start := end + 1;
    }
    assert list + [] == list;
    r := Ok(list);
  }

  // ----- properties

  predicate Listed(d: HostDetail) {
    ',' !in d.name && ':' !in d.name && 0 <= d.port <= 65535
  }

  function Shown(d: HostDetail): string
    requires Listed(d)
  {
    d.name + ":" + Decimal(d.port)
  }

  function ShownList(list: seq<HostDetail>): string
    requires list != [] && forall d | d in list :: Listed(d)
  {
    if |list| == 1 then Shown(list[0]) else Shown(list[0]) + "," + ShownList(list[1..])
  }

  lemma ShownItem(d: HostDetail, defaultPort: int)
    requires Listed(d)
    ensures ',' !in Shown(d) && !Rejected(Shown(d)) && Item(Shown(d), defaultPort) == d
  {
    DecimalRoundTrip(d.port);
    AtolOfDecimal(d.port);
    assert Shown(d)[..|d.name|] == d.name;
    IndexIs(Shown(d), ':', |d.name|);
    assert Shown(d)[|d.name| + 1..] == Decimal(d.port);
  }

  lemma SplitHead(head: string, tail: string)
    requires ',' !in head
    ensures Split(head) == [head]
    ensures Split(head + "," + tail) == [head] + Split(tail)
  {
    var text := head + "," + tail;
    assert head[..|head|] == head && text[..|head|] == head && text[|head| + 1..] == tail;
    IndexIs(head, ',', |head|);
    IndexIs(text, ',', |head|);
  }

  /** The items of a list's text are the texts of its hosts. */
  function ShownItems(list: seq<HostDetail>): seq<string>
    requires forall d | d in list :: Listed(d)
  {
    if list == [] then [] else [Shown(list[0])] + ShownItems(list[1..])
  }

  lemma {:induction false} SplitShown(list: seq<HostDetail>)
    requires list != [] && forall d | d in list :: Listed(d)
    ensures Split(ShownList(list)) == ShownItems(list)
  {
    ShownItem(list[0], 0);
    if |list| == 1 {
      SplitHead(Shown(list[0]), "");
    } else {
      SplitHead(Shown(list[0]), ShownList(list[1..]));
      SplitShown(list[1..]);
    }
  }

  lemma {:induction false} ShownItemsParse(list: seq<HostDetail>, defaultPort: int)
    requires forall d | d in list :: Listed(d)
    ensures !SomeRejected(ShownItems(list)) && Items(ShownItems(list), defaultPort) == list
  {
    if list != [] {
      ShownItem(list[0], defaultPort);
      ShownItemsParse(list[1..], defaultPort);
      FirstItem(Shown(list[0]), ShownItems(list[1..]), defaultPort);
      assert list == [list[0]] + list[1..];
    }
  }

  /** Round trip: the text of a list of hosts with ports reads back as that list, whatever the default port. */
  lemma HostListRoundTrip(list: seq<HostDetail>, defaultPort: int)
    requires list != [] && forall d | d in list :: Listed(d)
    ensures Parsed(Split(ShownList(list)), defaultPort, ShownList(list)) == Ok(list)
  {
    SplitShown(list);
    ShownItemsParse(list, defaultPort);
  }

  /** Whether the port text begins with a number at all. */
  predicate HasNumber(text: string) {
    var t := SkipSpaces(text);
    (t != "" && IsDigit(t[0])) || (|t| > 1 && (t[0] == '-' || t[0] == '+') && IsDigit(t[1]))
  }

  /**
   The comment in the parser promises to tell "0" from "no number" by whether anything was converted. The test looks
   at the length instead: a text without a number is rejected exactly when it is empty, and otherwise read as port 0.
   */
  lemma NoNumberIsPortZero(text: string)
    requires !HasNumber(text)
    ensures PortRejected(text) <==> text == ""
    ensures Atol(text) == 0
  {
    var t := SkipSpaces(text);
    if t != "" && (t[0] == '-' || t[0] == '+') {
      assert LeadingDigits(t[1..]) == "";
    } else {
      assert LeadingDigits(t) == "";
    }
  }
}
