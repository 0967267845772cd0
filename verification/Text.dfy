/** Decimal numbers, separators and joins: the text operations the driver's string builders and parsers share. */
module Text {

  // ----- decimal numbers

  predicate IsDigit(c: char) {
    '0' <= c <= '9'
  }

  /** std::to_string of a number that is not negative. */
  function Decimal(n: nat): string {
    if n < 10 then [('0' as int + n) as char] else Decimal(n / 10) + Decimal(n % 10)
  }

  function Value(digits: string): nat
    requires forall c | c in digits :: IsDigit(c)
  {
    if digits == "" then 0
    else
      var last := digits[|digits| - 1];
      assert last in digits && IsDigit(last);
      10 * Value(digits[..|digits| - 1]) + (last as int - '0' as int)
  }

  lemma {:induction false} DecimalRoundTrip(n: nat)
    ensures Decimal(n) != "" && forall c | c in Decimal(n) :: IsDigit(c)
    ensures Value(Decimal(n)) == n
  {
    if n < 10 {
      assert Decimal(n)[..0] == "";
    } else {
      DecimalRoundTrip(n / 10);
      DecimalRoundTrip(n % 10);
      assert Decimal(n)[..|Decimal(n)| - 1] == Decimal(n / 10);
    }
  }

  /** Numbers are written without leading zeros. */
  lemma {:induction false} NoLeadingZero(n: nat)
    requires n > 0
    ensures Decimal(n) != "" && Decimal(n)[0] != '0'
  {
    if n >= 10 {
      NoLeadingZero(n / 10);
    }
  }

  // ----- separators

  /** The first position of a character, or the length when it does not occur. */
  function IndexOf(s: string, c: char): nat {
    if s == "" || s[0] == c then 0 else 1 + IndexOf(s[1..], c)
  }

  lemma {:induction false} FirstIndex(s: string, c: char)
    ensures IndexOf(s, c) <= |s| && c !in s[..IndexOf(s, c)]
    ensures IndexOf(s, c) < |s| ==> s[IndexOf(s, c)] == c
    ensures IndexOf(s, c) < |s| <==> c in s
  {
    if s != "" && s[0] != c {
      FirstIndex(s[1..], c);
      assert s[..IndexOf(s, c)] == [s[0]] + s[1..][..IndexOf(s[1..], c)];
      assert s == [s[0]] + s[1..];
    }
  }

  lemma {:induction false} IndexIs(s: string, c: char, i: nat)
    requires i <= |s| && c !in s[..i] && (i < |s| ==> s[i] == c)
    ensures IndexOf(s, c) == i
  {
    if i > 0 {
      assert s[0] in s[..i];
      assert s[1..][..i - 1] == s[..i][1..];
      IndexIs(s[1..], c, i - 1);
    }
  }

  /** A string is cut at its first separator in one way only. */
  lemma FirstCutIsUnique(a: string, s: string, b: string, t: string, c: char)
    requires c !in a && c !in b && a + [c] + s == b + [c] + t
    ensures a == b && s == t
  {
    var whole := a + [c] + s;
    assert whole[..|a|] == a && whole[..|b|] == b;
    IndexIs(whole, c, |a|);
    IndexIs(whole, c, |b|);
    assert s == whole[|a| + 1..] && t == whole[|b| + 1..];
  }

  // ----- concatenation

  lemma Regroup<T>(a: seq<T>, b: seq<T>, c: seq<T>)
    ensures a + (b + c) == a + b + c
  {
  }

  lemma RegroupAll<T>(a: seq<T>, b: seq<T>, c: seq<T>, d: seq<T>)
    ensures a + (b + c + d) == a + b + c + d
  {
  }

  // ----- joins

  function Join(parts: seq<string>, separator: string): string {
    if parts == [] then ""
    else if |parts| == 1 then parts[0]
    else Join(parts[..|parts| - 1], separator) + separator + parts[|parts| - 1]
  }

  lemma {:induction false} JoinCons(part: string, parts: seq<string>, separator: string)
    requires parts != []
    ensures Join([part] + parts, separator) == part + separator + Join(parts, separator)
  {
    var all, init, last := [part] + parts, parts[..|parts| - 1], parts[|parts| - 1];
    assert all[..|all| - 1] == [part] + init;
    if init == [] {
      assert parts == [last] && [part] + init == [part];
    } else {
      JoinCons(part, init, separator);
      RegroupAll(part + separator, Join(init, separator), separator, last);
    }
  }

  /** A join is every part followed by the separator, without the last separator. */
  function Terminated(parts: seq<string>, separator: string): string {
    if parts == [] then "" else Terminated(parts[..|parts| - 1], separator) + parts[|parts| - 1] + separator
  }

  lemma {:induction false} JoinedIsTerminatedWithoutTail(parts: seq<string>, separator: string)
    requires parts != []
    ensures Terminated(parts, separator) == Join(parts, separator) + separator
  {
    if |parts| > 1 {
      JoinedIsTerminatedWithoutTail(parts[..|parts| - 1], separator);
    } else {
      assert parts[..0] == [];
    }
  }

  lemma JoinSnoc(parts: seq<string>, part: string, separator: string)
    ensures Join(parts + [part], separator) ==
            if parts == [] then part else Join(parts, separator) + separator + part
  {
    assert (parts + [part])[..|parts|] == parts;
  }

  lemma {:induction false} TerminatedCons(part: string, parts: seq<string>, separator: string)
    ensures Terminated([part] + parts, separator) == part + separator + Terminated(parts, separator)
  {
    var all := [part] + parts;
    if parts == [] {
      assert all[..0] == [];
    } else {
      var init, last := parts[..|parts| - 1], parts[|parts| - 1];
      TerminatedCons(part, init, separator);
      assert all[..|all| - 1] == [part] + init;
      RegroupAll(part + separator, Terminated(init, separator), last, separator);
    }
  }
}
