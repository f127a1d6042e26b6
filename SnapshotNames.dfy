/**
 * The strings TableSnapshot derives from a snapshot: its internal identifier
 * "ks:table:tableId:tag" and the timestamped snapshot names built from a
 * client-supplied name, each proved against the parse that takes it apart again.
 */
module SnapshotNames {
  import opened Common

  /** String.format("%s", tag): a null tag prints as "null". */
  function TagText(tag: Option<string>): string
  {
    if tag.Some? then tag.value else "null"
  }

  /** buildSnapshotId: the four identity components joined by ':'. */
  function BuildSnapshotId(keyspace: string, table: string, tableId: string, tag: Option<string>): (id: string)
    ensures StartsWith(id, keyspace + ":")
  {
    keyspace + ":" + table + ":" + tableId + ":" + TagText(tag)
  }

  /** The pieces of `s` between occurrences of `sep` (String.split without dropping empty pieces). */
  function Split(s: string, sep: char): (parts: seq<string>)
    ensures |parts| >= 1
  {
    if s == [] then [""]
    else
      var rest := Split(s[1..], sep);
      if s[0] == sep then [""] + rest
      else [[s[0]] + rest[0]] + rest[1..]
  }

  lemma {:induction false} SplitNoSeparator(a: string, sep: char)
    requires sep !in a
    ensures Split(a, sep) == [a]
  {
    if a != [] {
      SplitNoSeparator(a[1..], sep);
      assert [a[0]] + a[1..] == a;
    }
  }

  lemma {:induction false} SplitAtSeparator(a: string, sep: char, b: string)
    requires sep !in a
    ensures Split(a + [sep] + b, sep) == [a] + Split(b, sep)
  {
    if a == [] {
      assert a + [sep] + b == [sep] + b;
      assert ([sep] + b)[1..] == b;
    } else {
      SplitAtSeparator(a[1..], sep, b);
      assert (a + [sep] + b)[1..] == a[1..] + [sep] + b;
      assert [a[0]] + a[1..] == a;
    }
  }

  /**
   * Splitting an identifier on ':' gives back its four components when none of them
   * contains a colon (CQL keyspace and table names and UUIDs never do).
   */
  lemma SnapshotIdSplits(keyspace: string, table: string, tableId: string, tag: Option<string>)
    requires ':' !in keyspace && ':' !in table && ':' !in tableId && ':' !in TagText(tag)
    ensures Split(BuildSnapshotId(keyspace, table, tableId, tag), ':') == [keyspace, table, tableId, TagText(tag)]
  {
    var t := TagText(tag);
    assert BuildSnapshotId(keyspace, table, tableId, tag) == keyspace + [':'] + (table + [':'] + (tableId + [':'] + t));
    SplitAtSeparator(keyspace, ':', table + [':'] + (tableId + [':'] + t));
    SplitAtSeparator(table, ':', tableId + [':'] + t);
    SplitAtSeparator(tableId, ':', t);
    SplitNoSeparator(t, ':');
  }

  /** The identifier splits back into its components whenever none of them contains a colon. */
  lemma ColonFreeIdSplits(keyspace: string, table: string, tableId: string, tag: Option<string>)
    ensures ':' !in keyspace && ':' !in table && ':' !in tableId && ':' !in TagText(tag)
            ==> Split(BuildSnapshotId(keyspace, table, tableId, tag), ':') == [keyspace, table, tableId, TagText(tag)]
  {
    if ':' !in keyspace && ':' !in table && ':' !in tableId && ':' !in TagText(tag) {
      SnapshotIdSplits(keyspace, table, tableId, tag);
    }
  }

  /** Under the same condition the identifier determines the identity: no two snapshots share one. */
  lemma SnapshotIdInjective(k1: string, t1: string, i1: string, g1: Option<string>,
                            k2: string, t2: string, i2: string, g2: Option<string>)
    requires ':' !in k1 && ':' !in t1 && ':' !in i1 && ':' !in TagText(g1)
    requires ':' !in k2 && ':' !in t2 && ':' !in i2 && ':' !in TagText(g2)
    requires BuildSnapshotId(k1, t1, i1, g1) == BuildSnapshotId(k2, t2, i2, g2)
    ensures k1 == k2 && t1 == t2 && i1 == i2 && TagText(g1) == TagText(g2)
  {
    SnapshotIdSplits(k1, t1, i1, g1);
    SnapshotIdSplits(k2, t2, i2, g2);
  }

  // Decimal rendering, as Long.toString does it.

  predicate IsDigit(c: char)
  {
    '0' <= c <= '9'
  }

  predicate AllDigits(s: string)
  {
    forall i :: 0 <= i < |s| ==> IsDigit(s[i])
  }

  function DigitChar(d: nat): (c: char)
    requires d < 10
    ensures IsDigit(c) && c as int - '0' as int == d
  {
    ('0' as int + d) as char
  }

  /** The decimal digits of `n`, most significant first, without leading zeros. */
  function Digits(n: nat): (s: string)
    ensures |s| >= 1 && AllDigits(s)
  {
    if n < 10 then [DigitChar(n)] else Digits(n / 10) + [DigitChar(n % 10)]
  }

  /** Long.toString. */
  function LongToString(n: int): string
  {
    if n < 0 then "-" + Digits(-n) else Digits(n)
  }

  function ParseDigits(s: string): nat
    requires AllDigits(s)
  {
    if s == [] then 0
    else ParseDigits(s[..|s| - 1]) * 10 + (s[|s| - 1] as int - '0' as int)
  }

  lemma {:induction false} ParseDigitsOfDigits(n: nat)
    ensures ParseDigits(Digits(n)) == n
  {
    if n >= 10 {
      ParseDigitsOfDigits(n / 10);
      var s := Digits(n);
      assert s[..|s| - 1] == Digits(n / 10);
    }
  }

  /** The length of the run of digits `s` starts with. */
  function DigitRun(s: string): (k: nat)
    ensures k <= |s| && AllDigits(s[..k])
    ensures k < |s| ==> !IsDigit(s[k])
  {
    if s == [] || !IsDigit(s[0]) then 0
    else
      var k := 1 + DigitRun(s[1..]);
      assert s[..k] == [s[0]] + s[1..][..k - 1];
      k
  }

  lemma {:induction false} DigitRunOfDigits(d: string, rest: string)
    requires AllDigits(d)
    requires rest == [] || !IsDigit(rest[0])
    ensures DigitRun(d + rest) == |d|
  {
    if d != [] {
      DigitRunOfDigits(d[1..], rest);
      assert (d + rest)[1..] == d[1..] + rest;
    }
  }

  /**
   * getTimestampedSnapshotName: the timestamp, then "-" and the client's name when it is
   * non-empty; the name parses back to the timestamp and the recorded client name.
   */
  function TimestampedSnapshotName(clientName: Option<string>, timestamp: int): (name: string)
    ensures ParseTimestampedSnapshotName(name) == Some((timestamp, RecordedName(clientName)))
  {
    var stamp := LongToString(timestamp);
    var magnitude: nat := if timestamp < 0 then -timestamp else timestamp;
    var recorded := RecordedName(clientName);
    var rest := if recorded.Some? then "-" + recorded.value else "";
    var d := Digits(magnitude);
    UnsignedNameRoundTrip(magnitude, rest, recorded);
    assert (d + rest)[0] == d[0] && IsDigit(d[0]);
    SignedNameRoundTrip(timestamp < 0, d + rest, magnitude, recorded);
    var name := if clientName.Some? && clientName.value != "" then stamp + "-" + clientName.value else stamp;
    assert name == stamp + rest;
    assert stamp + rest == if timestamp < 0 then "-" + (d + rest) else d + rest;
    name
  }

  /**
   * getTimestampedSnapshotNameWithPrefix: the prefix and a '-', after which the name parses
   * back to the timestamp and the recorded client name, whatever the prefix contains.
   */
  function TimestampedSnapshotNameWithPrefix(clientName: Option<string>, timestamp: int, prefix: string): (name: string)
    ensures StartsWith(name, prefix + "-")
    ensures ParseTimestampedSnapshotName(name[|prefix| + 1..]) == Some((timestamp, RecordedName(clientName)))
  {
    var body := TimestampedSnapshotName(clientName, timestamp);
    assert (prefix + "-" + body)[|prefix| + 1..] == body;
    prefix + "-" + body
  }

  /** The client name a timestamped name records: a null or empty one is not recorded. */
  function RecordedName(clientName: Option<string>): Option<string>
  {
    if clientName.Some? && clientName.value != "" then clientName else None
  }

  /** Takes an unsigned timestamped name apart: a run of digits, then nothing or "-" and a name. */
  function ParseUnsignedName(body: string): Option<(nat, Option<string>)>
  {
    var k := DigitRun(body);
    if k == 0 then None
    else
      var rest := body[k..];
      if rest == [] then Some((ParseDigits(body[..k]), None))
      else if rest[0] == '-' && |rest| > 1 then Some((ParseDigits(body[..k]), Some(rest[1..])))
      else None
  }

  /** Takes a timestamped snapshot name apart into its timestamp and client name. */
  function ParseTimestampedSnapshotName(s: string): Option<(int, Option<string>)>
  {
    var negative := |s| > 0 && s[0] == '-';
    match ParseUnsignedName(if negative then s[1..] else s)
    case None => None
    case Some((magnitude, name)) => Some((if negative then -(magnitude as int) else magnitude, name))
  }

  lemma UnsignedNameRoundTrip(magnitude: nat, rest: string, name: Option<string>)
    requires rest == (if name.Some? then "-" + name.value else "")
    requires name.Some? ==> name.value != ""
    ensures ParseUnsignedName(Digits(magnitude) + rest) == Some((magnitude, name))
  {
    var d := Digits(magnitude);
    DigitRunOfDigits(d, rest);
    assert (d + rest)[..|d|] == d;
    assert (d + rest)[|d|..] == rest;
    ParseDigitsOfDigits(magnitude);
  }

  lemma SignedNameRoundTrip(negative: bool, body: string, magnitude: nat, name: Option<string>)
    requires ParseUnsignedName(body) == Some((magnitude, name))
    requires |body| > 0 && body[0] != '-'
    ensures ParseTimestampedSnapshotName(if negative then "-" + body else body)
         == Some((if negative then -(magnitude as int) else magnitude, name))
  {
    if negative {
      assert ("-" + body)[1..] == body;
    }
  }
}
