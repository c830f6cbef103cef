/** Dimension strings of caps: `d1:d2:d3` for one tensor, joined by commas for a stream. */
module DimensionString {
  import opened Bytes
  import opened TensorMeta

  // ----- decimal numbers -----

  function Digit(n: nat): char
    requires n < 10
  {
    ('0' as int + n) as char
  }

  predicate IsDigit(c: char)
  {
    '0' <= c <= '9'
  }

  /** `%u` */
  function Decimal(n: nat): (s: string)
    ensures |s| > 0 && forall k :: 0 <= k < |s| ==> IsDigit(s[k])
  {
    if n < 10 then [Digit(n)] else Decimal(n / 10) + [Digit(n % 10)]
  }

  /** The value of a string of digits. */
  function Value(s: string): nat
    requires forall k :: 0 <= k < |s| ==> IsDigit(s[k])
  {
    if s == "" then 0
    else
      var last := s[|s| - 1];
      assert IsDigit(last);
      Value(s[..|s| - 1]) * 10 + (last as int - '0' as int)
  }

  function DigitPrefix(s: string): (n: nat)
    ensures n <= |s| && forall k :: 0 <= k < n ==> IsDigit(s[k])
    ensures n < |s| ==> !IsDigit(s[n])
  {
    if s == "" || !IsDigit(s[0]) then 0 else 1 + DigitPrefix(s[1..])
  }

  /** `g_ascii_strtoull` in base 10 on a stripped string: an optional sign, digits, saturation. */
  function StrToUll(s: string): Word64
  {
    var negative := s != "" && s[0] == '-';
    var body := if s != "" && (s[0] == '-' || s[0] == '+') then s[1..] else s;
    var v: int := Value(body[..DigitPrefix(body)]);
    if v >= TWO_64 then TWO_64 - 1 else if negative then Wrap64(-v) else v
  }

  lemma {:induction false} ValueOfDecimal(n: nat)
    ensures Value(Decimal(n)) == n
  {
    if n >= 10 {
      ValueOfDecimal(n / 10);
      var s := Decimal(n);
      assert s[..|s| - 1] == Decimal(n / 10);
    } else {
      assert Decimal(n)[..0] == "";
    }
  }

  /** Decimal notation: one digit for numbers below ten, otherwise one more digit than a tenth of the number. */
  lemma DecimalDigits(n: nat, k: nat)
    requires k < 10
    ensures Decimal(k) == ["0123456789"[k]]
    ensures n > 0 ==> Decimal(10 * n + k) == Decimal(n) + ["0123456789"[k]]
  {
  }

  lemma {:induction false} DigitsThen(digits: string, rest: string)
    requires forall k :: 0 <= k < |digits| ==> IsDigit(digits[k])
    requires rest != "" ==> !IsDigit(rest[0])
    ensures DigitPrefix(digits + rest) == |digits|
  {
    if digits == "" {
      assert digits + rest == rest;
    } else {
      assert (digits + rest)[1..] == digits[1..] + rest;
      DigitsThen(digits[1..], rest);
    }
  }

  /** What a 64-bit conversion keeps of a number: the largest value for everything too large. */
  function Saturated(n: nat): Word64
  {
    if n >= TWO_64 then TWO_64 - 1 else n
  }

  /**
   Decimal conversion, for every number: exact or the largest value, whatever follows the digits;
   a plus sign changes nothing, a minus sign negates modulo 2^64.
   */
  lemma StrToUllOfDecimal(n: nat, rest: string)
    requires rest != "" ==> !IsDigit(rest[0])
    ensures StrToUll(Decimal(n) + rest) == Saturated(n)
    ensures StrToUll("+" + (Decimal(n) + rest)) == Saturated(n)
    ensures n < TWO_64 ==> StrToUll("-" + (Decimal(n) + rest)) == Wrap64(0 - n as int)
  {
    hide Value, DigitPrefix, Decimal, Wrap64;
    var s := Decimal(n) + rest;
    assert IsDigit(s[0]) && s[0] != '-' && s[0] != '+';
    ValueOfDecimal(n);
    DigitsThen(Decimal(n), rest);
    assert s[..|Decimal(n)|] == Decimal(n);
    assert ("+" + s)[1..] == s && ("-" + s)[1..] == s;
  }

  // ----- splitting and stripping -----

  predicate IsSpace(c: char)
  {
    c == ' ' || c == '\t' || c == '\n' || c == '\r' || c as int == 12
  }

  function TrimLeft(s: string): string
  {
    if s != "" && IsSpace(s[0]) then TrimLeft(s[1..]) else s
  }

  function TrimRight(s: string): string
  {
    if s != "" && IsSpace(s[|s| - 1]) then TrimRight(s[..|s| - 1]) else s
  }

  /** `g_strstrip` */
  function Strip(s: string): string
  {
    TrimRight(TrimLeft(s))
  }

  /** Cuts at separators until `max` pieces are reached; `current` is the piece being read. */
  function SplitFrom(s: string, seps: set<char>, max: nat, current: string): seq<string>
  {
    if s == "" then [current]
    else if s[0] in seps && max > 1 then [current] + SplitFrom(s[1..], seps, max - 1, "")
    else SplitFrom(s[1..], seps, max, current + [s[0]])
  }

  /** `g_strsplit` and `g_strsplit_set`: the empty string has no pieces. */
  function Split(s: string, seps: set<char>, max: nat): seq<string>
  {
    if s == "" then [] else SplitFrom(s, seps, max, "")
  }

  function Join(parts: seq<string>, sep: char): string
  {
    if parts == [] then ""
    else if |parts| == 1 then parts[0]
    else parts[0] + [sep] + Join(parts[1..], sep)
  }

  predicate FreeOf(s: string, seps: set<char>)
  {
    forall k :: 0 <= k < |s| ==> s[k] !in seps
  }

  lemma {:induction false} SplitPlain(part: string, rest: string, seps: set<char>, max: nat, current: string)
    requires FreeOf(part, seps)
    ensures SplitFrom(part + rest, seps, max, current) == SplitFrom(rest, seps, max, current + part)
  {
    if part == "" {
      assert part + rest == rest && current + part == current;
    } else {
      SplitPlain(part[1..], rest, seps, max, current + [part[0]]);
      assert (part + rest)[1..] == part[1..] + rest && (part + rest)[0] == part[0];
      assert current + [part[0]] + part[1..] == current + part;
    }
  }

  /** Splitting undoes joining when the pieces contain no separator and are few enough. */
  lemma {:induction false} SplitJoin(parts: seq<string>, sep: char, seps: set<char>, max: nat)
    requires 0 < |parts| <= max && sep in seps
    requires forall k :: 0 <= k < |parts| ==> FreeOf(parts[k], seps)
    ensures SplitFrom(Join(parts, sep), seps, max, "") == parts
  {
    hide FreeOf;
    var first := parts[0];
    assert "" + first == first;
    if |parts| == 1 {
      SplitPlain(first, "", seps, max, "");
      assert first + "" == first;
      assert parts == [first];
    } else {
      var rest := Join(parts[1..], sep);
      SplitPlain(first, [sep] + rest, seps, max, "");
      assert first + [sep] + rest == first + ([sep] + rest);
      assert ([sep] + rest)[1..] == rest;
      SplitJoin(parts[1..], sep, seps, max - 1);
      assert parts == [first] + parts[1..];
    }
  }

  /** When there are more pieces than allowed, the last one keeps the rest unsplit. */
  lemma {:induction false} SplitJoinRest(parts: seq<string>, sep: char, seps: set<char>, max: nat)
    requires 0 < max < |parts| && sep in seps
    requires forall k :: 0 <= k < max ==> FreeOf(parts[k], seps)
    ensures SplitFrom(Join(parts, sep), seps, max, "") == parts[..max - 1] + [Join(parts[max - 1..], sep)]
  {
    hide FreeOf;
    var first, rest := parts[0], Join(parts[1..], sep);
    if max == 1 {
      SplitNoMore(Join(parts, sep), seps, "");
      assert "" + Join(parts, sep) == Join(parts, sep);
      assert parts[0..] == parts && parts[..0] == [];
    } else {
      assert "" + first == first;
      SplitPlain(first, [sep] + rest, seps, max, "");
      assert first + [sep] + rest == first + ([sep] + rest);
      assert ([sep] + rest)[1..] == rest;
      SplitJoinRest(parts[1..], sep, seps, max - 1);
      assert parts[1..][max - 2..] == parts[max - 1..];
      assert parts[..max - 1] == [first] + parts[1..][..max - 2];
    }
  }

  lemma {:induction false} SplitNoMore(s: string, seps: set<char>, current: string)
    ensures SplitFrom(s, seps, 1, current) == [current + s]
    decreases |s|
  {
    if s == "" {
      assert current + s == current;
    } else {
      SplitNoMore(s[1..], seps, current + [s[0]]);
      assert current + [s[0]] + s[1..] == current + s;
    }
  }

  const WHITESPACE: string := [' ', '\t', '\n', '\r', 12 as char]

  predicate AllSpace(s: string)
  {
    forall k :: 0 <= k < |s| ==> s[k] in WHITESPACE
  }

  lemma {:induction false} TrimLeftRemoves(l: string, s: string)
    requires AllSpace(l) && s != "" && s[0] !in WHITESPACE
    ensures TrimLeft(l + s) == s
  {
    if l == "" {
      assert l + s == s;
    } else {
      assert l[0] in WHITESPACE;
      TrimLeftRemoves(l[1..], s);
      assert (l + s)[1..] == l[1..] + s && (l + s)[0] == l[0];
    }
  }

  lemma {:induction false} TrimRightRemoves(s: string, r: string)
    requires AllSpace(r) && s != "" && s[|s| - 1] !in WHITESPACE
    ensures TrimRight(s + r) == s
  {
    if r == "" {
      assert s + r == s;
    } else {
      var n := |r| - 1;
      assert r[n] in WHITESPACE;
      TrimRightRemoves(s, r[..n]);
      assert (s + r)[..|s| + n] == s + r[..n] && (s + r)[|s| + n] == r[n];
    }
  }

  lemma {:induction false} BlankTrims(s: string)
    requires AllSpace(s)
    ensures TrimLeft(s) == ""
  {
    if s != "" {
      assert s[0] in WHITESPACE;
      BlankTrims(s[1..]);
    }
  }

  /** Stripping removes exactly the whitespace around a word, and all of a blank string. */
  lemma StripRemoves(l: string, s: string, r: string)
    requires AllSpace(l) && AllSpace(r)
    requires s != "" ==> s[0] !in WHITESPACE && s[|s| - 1] !in WHITESPACE
    ensures Strip(l + s + r) == s
  {
    if s == "" {
      BlankTrims(l + s + r);
    } else {
      TrimLeftRemoves(l, s + r);
      assert l + s + r == l + (s + r);
      TrimRightRemoves(s, r);
    }
  }

  /** A token with blanks around it and anything but a digit behind the number. */
  lemma TokenOfDecimal(l: string, n: nat, tail: string, r: string)
    requires AllSpace(l) && AllSpace(r)
    requires tail != "" ==> !IsDigit(tail[0]) && tail[|tail| - 1] !in WHITESPACE
    ensures Strip(l + (Decimal(n) + tail) + r) != ""
    ensures TokenValue(l + (Decimal(n) + tail) + r) == Saturated(n) % TWO_32
  {
    hide Decimal, Strip, StrToUll;
    var s := Decimal(n) + tail;
    assert IsDigit(s[0]) && IsDigit(Decimal(n)[|Decimal(n)| - 1]);
    StripRemoves(l, s, r);
    StrToUllOfDecimal(n, tail);
  }

  lemma DecimalFreeOf(n: nat, seps: set<char>)
    requires forall c :: c in seps ==> !IsDigit(c)
    ensures FreeOf(Decimal(n), seps)
  {
  }

  // ----- one dimension -----

  function Decimals(ns: seq<Word32>): (r: seq<string>)
    ensures |r| == |ns|
    ensures forall k :: 0 <= k < |ns| ==> r[k] == Decimal(ns[k])
  {
    seq(|ns|, k requires 0 <= k < |ns| => Decimal(ns[k]))
  }

  /** The leading dimensions that a rank limit lets through, joined by colons. */
  function Printed(d: Dimension, limit: nat): string
    requires limit <= RANK_LIMIT
  {
    Join(Decimals(d[..if Rank(d) < limit then Rank(d) else limit]), ':')
  }

  lemma {:induction false} JoinSnoc(parts: seq<string>, part: string, sep: char)
    requires parts != []
    ensures Join(parts + [part], sep) == Join(parts, sep) + [sep] + part
  {
    var all := parts + [part];
    if |parts| == 1 {
      assert all[1..] == [part];
    } else {
      JoinSnoc(parts[1..], part, sep);
      assert all[1..] == parts[1..] + [part];
      var x, y := parts[0] + [sep], Join(parts[1..], sep);
      assert x + (y + [sep] + part) == x + y + [sep] + part;
    }
  }

  /** `gst_tensor_get_rank_dimension_string`; a rank of 0 or beyond the limit means no limit. */
  method GetRankDimensionString(d: Dimension, rank: nat) returns (s: string)
    ensures s == Printed(d, if rank == 0 || rank > RANK_LIMIT then RANK_LIMIT else rank)
  {
    hide Decimal;
    var actual := if rank == 0 || rank > RANK_LIMIT then RANK_LIMIT else rank;
    s := "";
    var i := 0;
    ghost var stop := if Rank(d) < actual then Rank(d) else actual;
    while i < actual && d[i] != 0
      invariant 0 <= i <= stop
      invariant i == 0 ==> s == ""
      invariant 0 < i < stop ==> s == Join(Decimals(d[..i]), ':') + ":"
      invariant 0 < i == stop ==> s == Join(Decimals(d[..i]), ':')
    {
      assert Decimals(d[..i + 1]) == Decimals(d[..i]) + [Decimal(d[i])];
      if i > 0 {
        JoinSnoc(Decimals(d[..i]), Decimal(d[i]), ':');
      } else {
        assert Decimals(d[..0]) == [] && "" + Decimal(d[0]) == Decimal(d[0]);
      }
      s := s + Decimal(d[i]);
      if i < actual - 1 && d[i + 1] > 0 {
        s := s + ":";
      }
      i := i + 1;
    }
  }

  /** Tokens up to the first one that is blank. */
  function Filled(tokens: seq<string>): (n: nat)
    ensures n <= |tokens|
    ensures forall k :: 0 <= k < n ==> Strip(tokens[k]) != ""
    ensures n < |tokens| ==> Strip(tokens[n]) == ""
  {
    if tokens == [] || Strip(tokens[0]) == "" then 0 else 1 + Filled(tokens[1..])
  }

  /** The number in a token, cast to 32 bits. */
  function TokenValue(token: string): Word32
  {
    StrToUll(Strip(token)) % TWO_32
  }

  function ParsedTokens(tokens: seq<string>): (d: Dimension)
    requires |tokens| <= RANK_LIMIT
    ensures forall k :: 0 <= k < RANK_LIMIT ==> d[k] == if k < Filled(tokens) then TokenValue(tokens[k]) else 0
  {
    seq(RANK_LIMIT, k requires 0 <= k < RANK_LIMIT => if k < Filled(tokens) then TokenValue(tokens[k]) else 0)
  }

  function DimensionTokens(s: string): (r: seq<string>)
    ensures |r| <= RANK_LIMIT
  {
    SplitBound(Strip(s), {':'}, RANK_LIMIT, "");
    Split(Strip(s), {':'}, RANK_LIMIT)
  }

  lemma {:induction false} SplitBound(s: string, seps: set<char>, max: nat, current: string)
    requires max > 0
    ensures |SplitFrom(s, seps, max, current)| <= max
    decreases |s|
  {
    if s != "" {
      if s[0] in seps && max > 1 {
        SplitBound(s[1..], seps, max - 1, "");
      } else {
        SplitBound(s[1..], seps, max, current + [s[0]]);
      }
    }
  }

  /** `gst_tensor_parse_dimension`: the dimension and its rank. */
  method ParseDimension(s: string) returns (d: Dimension, rank: nat)
    ensures d == ParsedTokens(DimensionTokens(s)) && rank == Filled(DimensionTokens(s))
  {
    hide Strip, TokenValue, DimensionTokens;
    d := seq(RANK_LIMIT, _ => 0);
    rank := 0;
    var tokens := DimensionTokens(s);
    for i := 0 to |tokens|
      invariant rank == i <= Filled(tokens)
      invariant forall k :: 0 <= k < RANK_LIMIT ==> d[k] == if k < i then TokenValue(tokens[k]) else 0
    {
      if Strip(tokens[i]) == "" {
        assert i == Filled(tokens);
        return;
      }
      d := d[i := TokenValue(tokens[i])];
      rank := i + 1;
    }
  }

  lemma PrintedTokens(d: Dimension, limit: nat)
    requires Rank(d) > 0 && 0 < limit <= RANK_LIMIT
    ensures DimensionTokens(Printed(d, limit)) == Decimals(d[..if Rank(d) < limit then Rank(d) else limit])
  {
    hide Decimal, Split, SplitFrom, Strip;
    var n := if Rank(d) < limit then Rank(d) else limit;
    var parts := Decimals(d[..n]);
    forall k | 0 <= k < |parts| ensures FreeOf(parts[k], {':'}) {
      DecimalFreeOf(d[k], {':'});
    }
    SplitJoin(parts, ':', {':'}, RANK_LIMIT);
    JoinEnds(parts, ':');
    var s := Join(parts, ':');
    StripKeeps(s);
    SplitNonEmpty(s, {':'}, RANK_LIMIT);
  }

  lemma SplitNonEmpty(s: string, seps: set<char>, max: nat)
    requires s != ""
    ensures Split(s, seps, max) == SplitFrom(s, seps, max, "")
  {
  }

  lemma StripKeeps(s: string)
    requires s != "" && !IsSpace(s[0]) && !IsSpace(s[|s| - 1])
    ensures Strip(s) == s
  {
  }

  /** Joined non-empty pieces begin and end like the first and the last piece. */
  lemma {:induction false} JoinEnds(parts: seq<string>, sep: char)
    requires parts != [] && forall k :: 0 <= k < |parts| ==> |parts[k]| > 0 && NoSpaceEnds(parts[k])
    ensures Join(parts, sep) != "" && NoSpaceEnds(Join(parts, sep))
  {
    if |parts| > 1 {
      JoinEnds(parts[1..], sep);
      var rest := Join(parts[1..], sep);
      var s := Join(parts, sep);
      assert s[0] == parts[0][0] && s[|s| - 1] == rest[|rest| - 1];
    }
  }

  predicate NoSpaceEnds(s: string)
  {
    s != "" ==> !IsSpace(s[0]) && !IsSpace(s[|s| - 1])
  }

  /**
   Parsing what was printed gives back the dimension up to the rank limit and nothing behind it,
   and the rank; without a limit the whole dimension, if it is valid.
   */
  lemma DimensionRoundTrip(d: Dimension, limit: nat)
    requires Rank(d) > 0 && 0 < limit <= RANK_LIMIT
    ensures var n := if Rank(d) < limit then Rank(d) else limit;
            && Filled(DimensionTokens(Printed(d, limit))) == n
            && forall k :: 0 <= k < RANK_LIMIT ==>
                 ParsedTokens(DimensionTokens(Printed(d, limit)))[k] == if k < n then d[k] else 0
    ensures DimensionValid(d) ==>
              ParsedTokens(DimensionTokens(Printed(d, RANK_LIMIT))) == d
              && Filled(DimensionTokens(Printed(d, RANK_LIMIT))) == Rank(d)
  {
    hide Decimal, DimensionTokens, Printed, Strip, StrToUll;
    DecimalsParse(d, limit);
    DecimalsParse(d, RANK_LIMIT);
  }

  lemma DecimalsParse(d: Dimension, limit: nat)
    requires Rank(d) > 0 && 0 < limit <= RANK_LIMIT
    ensures var n := if Rank(d) < limit then Rank(d) else limit;
            && Filled(DimensionTokens(Printed(d, limit))) == n
            && forall k :: 0 <= k < RANK_LIMIT ==>
                 ParsedTokens(DimensionTokens(Printed(d, limit)))[k] == if k < n then d[k] else 0
  {
    hide Decimal, DimensionTokens, Printed, Strip, TokenValue, AllSpace;
    PrintedTokens(d, limit);
    var n := if Rank(d) < limit then Rank(d) else limit;
    var tokens := Decimals(d[..n]);
    forall k | 0 <= k < |tokens| ensures Strip(tokens[k]) != "" && TokenValue(tokens[k]) == d[k] {
      DecimalToken(d[k]);
    }
    assert Filled(tokens) == |tokens|;
  }

  lemma DecimalToken(n: Word32)
    ensures Strip(Decimal(n)) != "" && TokenValue(Decimal(n)) == n
  {
    hide Decimal, Strip, StrToUll, TokenValue;
    TokenOfDecimal("", n, "", "");
    assert "" + (Decimal(n) + "") + "" == Decimal(n);
  }

  /** Of a string of more numbers than dimensions the first sixteen are taken. */
  lemma LongDimension(ns: seq<Word32>)
    requires |ns| > RANK_LIMIT
    ensures var tokens := DimensionTokens(Join(Decimals(ns), ':'));
            Filled(tokens) == RANK_LIMIT && ParsedTokens(tokens) == ns[..RANK_LIMIT]
  {
    hide Decimal, Split, SplitFrom, Strip, TokenValue, Join;
    var parts, last := Decimals(ns), RANK_LIMIT - 1;
    forall k | 0 <= k < |parts| ensures FreeOf(parts[k], {':'}) && NoSpaceEnds(parts[k]) {
      DecimalFreeOf(ns[k], {':'});
    }
    JoinEnds(parts, ':');
    var s := Join(parts, ':');
    StripKeeps(s);
    SplitNonEmpty(s, {':'}, RANK_LIMIT);
    SplitJoinRest(parts, ':', {':'}, RANK_LIMIT);
    var tokens := DimensionTokens(s);
    assert tokens == parts[..last] + [Join(parts[last..], ':')];
    forall k | 0 <= k < RANK_LIMIT ensures Strip(tokens[k]) != "" && TokenValue(tokens[k]) == ns[k] {
      if k < last {
        DecimalToken(ns[k]);
      } else {
        RestToken(ns[last..]);
        assert Decimals(ns[last..]) == parts[last..];
      }
    }
    assert Filled(tokens) == RANK_LIMIT;
  }

  /** The unsplit rest is read as its first number. */
  lemma RestToken(ns: seq<Word32>)
    requires |ns| > 1
    ensures Strip(Join(Decimals(ns), ':')) != "" && TokenValue(Join(Decimals(ns), ':')) == ns[0]
  {
    hide Decimal, Strip, TokenValue;
    var parts := Decimals(ns);
    var rest := Join(parts[1..], ':');
    JoinEnds(parts[1..], ':');
    var tail := [':'] + rest;
    TokenOfDecimal("", ns[0], tail, "");
    assert "" + (Decimal(ns[0]) + tail) + "" == Join(parts, ':');
  }

  // ----- the dimensions of a stream -----

  function PrintedAll(ds: seq<Dimension>): (r: seq<string>)
    ensures |r| == |ds|
    ensures forall k :: 0 <= k < |ds| ==> r[k] == Printed(ds[k], RANK_LIMIT)
  {
    seq(|ds|, k requires 0 <= k < |ds| => Printed(ds[k], RANK_LIMIT))
  }

  /** `gst_tensors_info_get_dimensions_string` */
  function StreamString(ds: seq<Dimension>): string
  {
    Join(PrintedAll(ds), ',')
  }

  method GetDimensionsString(ds: seq<Dimension>) returns (s: string)
    ensures s == StreamString(ds)
  {
    hide Printed;
    s := "";
    for i := 0 to |ds|
      invariant 0 < i < |ds| ==> s == Join(PrintedAll(ds[..i]), ',') + ","
      invariant i == 0 ==> s == ""
      invariant 0 < i == |ds| ==> s == Join(PrintedAll(ds[..i]), ',')
    {
      var part := GetRankDimensionString(ds[i], RANK_LIMIT);
      assert PrintedAll(ds[..i + 1]) == PrintedAll(ds[..i]) + [part];
      if i > 0 {
        JoinSnoc(PrintedAll(ds[..i]), part, ',');
      }
      s := s + part;
      if i < |ds| - 1 {
        s := s + ",";
      }
    }
    assert ds[..|ds|] == ds;
  }

  const STREAM_SEPARATORS: set<char> := {',', '.'}

  /** The pieces of a stream string; further ones than SIZE_LIMIT are ignored. */
  function StreamTokens(s: string): (r: seq<string>)
    ensures |r| <= SIZE_LIMIT
  {
    var all := Split(s, STREAM_SEPARATORS, |s| + 2);
    if |all| > SIZE_LIMIT then all[..SIZE_LIMIT] else all
  }

  /** `gst_tensors_info_parse_dimensions_string`: one dimension per piece, and their number. */
  method ParseDimensions(s: string) returns (ds: seq<Dimension>, num: nat)
    ensures num == |ds| == |StreamTokens(s)|
    ensures forall k :: 0 <= k < num ==> ds[k] == ParsedTokens(DimensionTokens(StreamTokens(s)[k]))
  {
    hide StreamTokens, DimensionTokens, ParsedTokens;
    var tokens := StreamTokens(s);
    num, ds := |tokens|, [];
    for i := 0 to num
      invariant |ds| == i
      invariant forall k :: 0 <= k < i ==> ds[k] == ParsedTokens(DimensionTokens(tokens[k]))
    {
      var d, _ := ParseDimension(tokens[i]);
      ds := ds + [d];
    }
  }

  /** A blank string has no dimension, an empty one no tensors; a blank piece is a tensor without dimension. */
  lemma NothingToParse(blank: string)
    requires AllSpace(blank)
    ensures Filled(DimensionTokens(blank)) == 0
    ensures StreamTokens("") == []
    ensures blank != "" ==> StreamTokens(blank) == [blank]
  {
    StripRemoves(blank, "", "");
    assert blank + "" + "" == blank;
    if blank != "" {
      SplitPlain(blank, "", STREAM_SEPARATORS, |blank| + 2, "");
      assert blank + "" == blank && "" + blank == blank;
    }
  }

  lemma {:induction false} JoinFreeOf(parts: seq<string>, sep: char, seps: set<char>)
    requires sep !in seps && forall k :: 0 <= k < |parts| ==> FreeOf(parts[k], seps)
    ensures FreeOf(Join(parts, sep), seps)
  {
    if |parts| > 1 {
      JoinFreeOf(parts[1..], sep, seps);
    }
  }

  lemma {:induction false} JoinLength(parts: seq<string>, sep: char)
    requires parts != []
    ensures |Join(parts, sep)| >= |parts| - 1
  {
    if |parts| > 1 {
      JoinLength(parts[1..], sep);
    }
  }

  lemma PrintedShape(d: Dimension)
    requires DimensionValid(d)
    ensures FreeOf(Printed(d, RANK_LIMIT), STREAM_SEPARATORS)
    ensures Printed(d, RANK_LIMIT) != "" && NoSpaceEnds(Printed(d, RANK_LIMIT))
  {
    hide Decimal;
    var parts := Decimals(d[..Rank(d)]);
    forall k | 0 <= k < |parts| ensures FreeOf(parts[k], STREAM_SEPARATORS) {
      DecimalFreeOf(d[k], STREAM_SEPARATORS);
    }
    JoinFreeOf(parts, ':', STREAM_SEPARATORS);
    JoinEnds(parts, ':');
  }

  /**
   The whole stream round-trips: the same dimensions, ranks and number of tensors. Full stops
   separate like commas, and tensors beyond the limit are ignored.
   */
  lemma StreamRoundTrip(ds: seq<Dimension>, sep: char)
    requires sep in {',', '.'} && ds != [] && forall k :: 0 <= k < |ds| ==> DimensionValid(ds[k])
    ensures sep == ',' ==> Join(PrintedAll(ds), sep) == StreamString(ds)
    ensures var tokens := StreamTokens(Join(PrintedAll(ds), sep));
            && |tokens| == (if |ds| > SIZE_LIMIT then SIZE_LIMIT else |ds|)
            && forall k :: 0 <= k < |tokens| ==>
                 && ParsedTokens(DimensionTokens(tokens[k])) == ds[k]
                 && Filled(DimensionTokens(tokens[k])) == Rank(ds[k])
  {
    hide Printed, DimensionTokens, ParsedTokens, Filled, Join, StreamTokens;
    StreamPieces(ds, sep);
    forall k | 0 <= k < |ds|
      ensures ParsedTokens(DimensionTokens(PrintedAll(ds)[k])) == ds[k]
      ensures Filled(DimensionTokens(PrintedAll(ds)[k])) == Rank(ds[k])
    {
      DimensionRoundTrip(ds[k], RANK_LIMIT);
    }
  }

  lemma StreamPieces(ds: seq<Dimension>, sep: char)
    requires sep in {',', '.'} && ds != [] && forall k :: 0 <= k < |ds| ==> DimensionValid(ds[k])
    ensures StreamTokens(Join(PrintedAll(ds), sep)) == PrintedAll(ds)[..if |ds| > SIZE_LIMIT then SIZE_LIMIT else |ds|]
  {
    hide Printed, SplitFrom, FreeOf, Join, NoSpaceEnds, Split;
    var parts := PrintedAll(ds);
    forall k | 0 <= k < |ds|
      ensures FreeOf(parts[k], STREAM_SEPARATORS) && |parts[k]| > 0 && NoSpaceEnds(parts[k])
    {
      PrintedShape(ds[k]);
    }
    var s := Join(parts, sep);
    JoinLength(parts, sep);
    JoinEnds(parts, sep);
    SplitJoin(parts, sep, STREAM_SEPARATORS, |s| + 2);
    SplitNonEmpty(s, STREAM_SEPARATORS, |s| + 2);
    assert parts[..|ds|] == parts;
  }
}
