/** Chunk keys of the Zarr version 2 storage layout, such as `t2/0.5.0.0`. */
module ChunkKeys {
  import opened Options
  import opened RowMajor

  const U64_MAX: nat := 0xFFFF_FFFF_FFFF_FFFF

  datatype ChunkKey = ChunkKey(name: string, indices: seq<nat>)

  // ---------------------------------------------------------------------------------------------
  // Parsing
  // ---------------------------------------------------------------------------------------------

  function TrimSlashes(s: string): string {
    if s != [] && s[0] == '/' then TrimSlashes(s[1..]) else s
  }

  /** The parts between separators; there is always at least one. */
  function Split(s: string, sep: char): (parts: seq<string>)
    ensures |parts| >= 1
  {
    if s == [] then [[]]
    else
      var rest := Split(s[1..], sep);
      if s[0] == sep then [[]] + rest else [[s[0]] + rest[0]] + rest[1..]
  }

  function DigitValue(c: char): Option<nat> {
    if '0' <= c <= '9' then Some(c as nat - '0' as nat) else None
  }

  function DigitsValue(s: string): Option<nat> {
    if s == [] then Some(0)
    else
      var front, last := DigitsValue(s[..|s| - 1]), DigitValue(s[|s| - 1]);
      if front.Some? && last.Some? then Some(front.value * 10 + last.value) else None
  }

  /** `str::parse::<u64>`: an optional plus sign, at least one digit, no overflow. */
  function ParseU64(s: string): Option<nat> {
    var digits := if s != [] && s[0] == '+' then s[1..] else s;
    var v := DigitsValue(digits);
    if digits == [] || v.None? || v.value > U64_MAX then None else v
  }

  function ParseAll(parts: seq<string>): Option<seq<nat>> {
    if parts == [] then Some([])
    else
      var first, rest := ParseU64(parts[0]), ParseAll(parts[1..]);
      if first.Some? && rest.Some? then Some([first.value] + rest.value) else None
  }

  /** `parse_chunk_key`; whatever follows a second slash is ignored. */
  function Parse(key: string): Option<ChunkKey> {
    var parts := Split(TrimSlashes(key), '/');
    if |parts| < 2 then None
    else
      var indices := ParseAll(Split(parts[1], '.'));
      if indices.None? then None else Some(ChunkKey(parts[0], indices.value))
  }

  // ---------------------------------------------------------------------------------------------
  // Rendering
  // ---------------------------------------------------------------------------------------------

  function Digit(d: nat): char
    requires d < 10
  {
    '0' + d as char
  }

  function Decimal(n: nat): (s: string)
    ensures s != [] && forall i :: 0 <= i < |s| ==> '0' <= s[i] <= '9'
  {
    if n < 10 then [Digit(n)] else Decimal(n / 10) + [Digit(n % 10)]
  }

  function JoinDots(indices: seq<nat>): string
    requires indices != []
  {
    if |indices| == 1 then Decimal(indices[0]) else Decimal(indices[0]) + ['.'] + JoinDots(indices[1..])
  }

  function Render(key: ChunkKey): string
    requires key.indices != []
  {
    key.name + ['/'] + JoinDots(key.indices)
  }

  // ---------------------------------------------------------------------------------------------
  // Round trip
  // ---------------------------------------------------------------------------------------------

  lemma {:induction false} DecimalValue(n: nat)
    ensures DigitsValue(Decimal(n)) == Some(n)
  {
    if n < 10 {
      var s := [Digit(n)];
      assert s[..0] == [];
      assert DigitsValue(s[..0]) == Some(0);
    } else {
      DecimalValue(n / 10);
      var front := Decimal(n / 10);
      var s := front + [Digit(n % 10)];
      assert s[..|s| - 1] == front;
    }
  }

  lemma DecimalParses(n: nat)
    requires n <= U64_MAX
    ensures ParseU64(Decimal(n)) == Some(n)
  {
    DecimalValue(n);
  }

  /** A separator right after a separator-free stretch ends the first part. */
  lemma {:induction false} SplitAtFirst(a: string, sep: char, b: string)
    requires sep !in a
    ensures Split(a + [sep] + b, sep) == [a] + Split(b, sep)
  {
    var s := a + [sep] + b;
    if a == [] {
      assert s == [sep] + b && s[1..] == b;
    } else {
      SplitAtFirst(a[1..], sep, b);
      assert s[1..] == a[1..] + [sep] + b;
      var rest := Split(s[1..], sep);
      assert rest == [a[1..]] + Split(b, sep);
      assert [s[0]] + rest[0] == a && rest[1..] == Split(b, sep);
    }
  }

  lemma {:induction false} SplitWhole(a: string, sep: char)
    requires sep !in a
    ensures Split(a, sep) == [a]
  {
    if a != [] {
      SplitWhole(a[1..], sep);
      assert [a[0]] + a[1..] == a;
    }
  }

  lemma ParseAllCons(part: string, rest: seq<string>, n: nat, ns: seq<nat>)
    requires ParseU64(part) == Some(n) && ParseAll(rest) == Some(ns)
    ensures ParseAll([part] + rest) == Some([n] + ns)
  {
    assert ([part] + rest)[1..] == rest;
  }

  lemma {:induction false} DotsHaveNoSlash(indices: seq<nat>)
    requires indices != []
    ensures '/' !in JoinDots(indices)
  {
    if |indices| > 1 { DotsHaveNoSlash(indices[1..]); }
  }

  lemma {:induction false} DotsParse(indices: seq<nat>)
    requires indices != [] && forall k :: 0 <= k < |indices| ==> indices[k] <= U64_MAX
    ensures ParseAll(Split(JoinDots(indices), '.')) == Some(indices)
  {
    var first := Decimal(indices[0]);
    DecimalParses(indices[0]);
    assert '.' !in first;
    if |indices| == 1 {
      SplitWhole(first, '.');
      ParseAllCons(first, [], indices[0], []);
      assert [first] + [] == [first] && [indices[0]] + [] == indices;
    } else {
      var rest := JoinDots(indices[1..]);
      DotsParse(indices[1..]);
      SplitAtFirst(first, '.', rest);
      ParseAllCons(first, Split(rest, '.'), indices[0], indices[1..]);
      assert indices == [indices[0]] + indices[1..];
    }
  }

  /** Parsing a rendered key gives it back, for every array name without slashes. */
  lemma ParseRender(key: ChunkKey)
    requires key.name != [] && '/' !in key.name
    requires key.indices != [] && forall k :: 0 <= k < |key.indices| ==> key.indices[k] <= U64_MAX
    ensures Parse(Render(key)) == Some(key)
  {
    var dots := JoinDots(key.indices);
    DotsParse(key.indices);
    DotsHaveNoSlash(key.indices);
    assert Render(key)[0] == key.name[0];
    assert TrimSlashes(Render(key)) == Render(key);
    SplitAtFirst(key.name, '/', dots);
    SplitWhole(dots, '/');
    var parts := Split(Render(key), '/');
    assert parts == [key.name] + [dots];
  }

  // ---------------------------------------------------------------------------------------------
  // Which keys parse
  // ---------------------------------------------------------------------------------------------

  predicate Only(s: string, c: char) { forall i :: 0 <= i < |s| ==> s[i] == c }

  /** A written number: an optional plus sign, any leading zeros, the decimal digits. */
  ghost predicate Numeral(s: string, n: nat) {
    n <= U64_MAX && exists sign: string, zeros: string :: IsNumeral(s, n, sign, zeros)
  }

  predicate IsNumeral(s: string, n: nat, sign: string, zeros: string) {
    (sign == "" || sign == "+") && Only(zeros, '0') && s == sign + (zeros + Decimal(n))
  }

  /** Numerals with dots between them. */
  ghost predicate Dotted(s: string, ns: seq<nat>)
    decreases |ns|
  {
    if |ns| == 0 then false
    else if |ns| == 1 then Numeral(s, ns[0])
    else exists a: string, b: string :: s == a + ['.'] + b && Numeral(a, ns[0]) && Dotted(b, ns[1..])
  }

  /** What an accepted key looks like: slashes, a name, a slash, dotted numerals, and possibly a slash and anything. */
  ghost predicate Spells(key: string, k: ChunkKey) {
    && k.name != [] && '/' !in k.name
    && exists lead: string, dots: string, rest: string :: IsKey(key, k, lead, dots, rest)
  }

  ghost predicate IsKey(key: string, k: ChunkKey, lead: string, dots: string, rest: string) {
    && Only(lead, '/') && Dotted(dots, k.indices) && (rest != [] ==> rest[0] == '/')
    && key == lead + (k.name + ['/'] + (dots + rest))
  }

  lemma {:induction false} ZerosKeepValue(zeros: string, n: nat)
    requires Only(zeros, '0')
    ensures DigitsValue(zeros + Decimal(n)) == Some(n)
  {
    var s := zeros + Decimal(n);
    var front := s[..|s| - 1];
    if n < 10 {
      assert front == zeros;
      OnlyZeros(zeros);
    } else {
      assert front == zeros + Decimal(n / 10);
      ZerosKeepValue(zeros, n / 10);
    }
  }

  lemma {:induction false} OnlyZeros(zeros: string)
    requires Only(zeros, '0')
    ensures DigitsValue(zeros) == Some(0)
  {
    if zeros != [] { OnlyZeros(zeros[..|zeros| - 1]); }
  }

  /** A string of digits is leading zeros before the decimal form of its value. */
  lemma {:induction false} LeadingZeros(s: string) returns (zeros: string)
    requires s != [] && DigitsValue(s).Some?
    ensures Only(zeros, '0') && s == zeros + Decimal(DigitsValue(s).value)
  {
    var front, d := s[..|s| - 1], s[|s| - 1];
    assert s == front + [d] && Digit(DigitValue(d).value) == d;
    if front == [] {
      zeros := [];
    } else {
      var z := LeadingZeros(front);
      var m, v := DigitsValue(front).value, DigitValue(d).value;
      if m == 0 {
        zeros := front;
      } else {
        zeros := z;
        DigitAppends(m, v);
        assert z + (Decimal(m) + [d]) == z + Decimal(m) + [d];
      }
    }
  }

  lemma DigitAppends(m: nat, v: nat)
    requires m > 0 && v < 10
    ensures Decimal(m * 10 + v) == Decimal(m) + [Digit(v)]
  {
  }

  lemma ParsedIsNumeral(s: string, n: nat)
    requires ParseU64(s) == Some(n)
    ensures Numeral(s, n)
  {
    var sign: string := if s[0] == '+' then "+" else "";
    var digits := if s[0] == '+' then s[1..] else s;
    var zeros := LeadingZeros(digits);
    assert s == sign + digits;
    assert IsNumeral(s, n, sign, zeros);
  }

  lemma SignedParses(sign: string, digits: string)
    requires sign == "" || sign == "+"
    requires digits != [] && digits[0] != '+' && DigitsValue(digits).Some? && DigitsValue(digits).value <= U64_MAX
    ensures ParseU64(sign + digits) == DigitsValue(digits)
  {
    if sign == "+" {
      assert (sign + digits)[0] == '+' && (sign + digits)[1..] == digits;
    } else {
      assert sign + digits == digits;
    }
  }

  lemma NoPlus(zeros: string, n: nat)
    requires Only(zeros, '0')
    ensures zeros + Decimal(n) != [] && (zeros + Decimal(n))[0] != '+'
  {
    assert (zeros + Decimal(n))[0] == if zeros == [] then Decimal(n)[0] else zeros[0];
  }

  lemma NumeralParses(s: string, n: nat)
    requires Numeral(s, n)
    ensures ParseU64(s) == Some(n)
  {
    var sign: string, zeros: string :| IsNumeral(s, n, sign, zeros);
    var digits := zeros + Decimal(n);
    ZerosKeepValue(zeros, n);
    NoPlus(zeros, n);
    SignedParses(sign, digits);
  }

  lemma NumeralIff(s: string, n: nat)
    ensures ParseU64(s) == Some(n) <==> Numeral(s, n)
  {
    if ParseU64(s) == Some(n) { ParsedIsNumeral(s, n); }
    if Numeral(s, n) { NumeralParses(s, n); }
  }

  lemma NumeralHasNo(s: string, n: nat, c: char)
    requires Numeral(s, n) && c != '+' && !('0' <= c <= '9')
    ensures c !in s
  {
  }

  /** `first` runs to the first separator of `s`, and the other parts are those of what follows it. */
  predicate HeadIs(s: string, sep: char, first: string, others: seq<string>) {
    && sep !in first
    && (others == [] ==> s == first)
    && (others != [] ==> |first| < |s| && s == first + [sep] + s[|first| + 1..] && Split(s[|first| + 1..], sep) == others)
  }

  lemma {:induction false} SplitHead(s: string, sep: char)
    ensures HeadIs(s, sep, Split(s, sep)[0], Split(s, sep)[1..])
  {
    if s != [] {
      var rest := Split(s[1..], sep);
      assert s == [s[0]] + s[1..];
      if s[0] == sep {
        var parts := [[]] + rest;
        assert parts[0] == [] && parts[1..] == rest;
        assert s == [] + [sep] + s[1..];
      } else {
        SplitHead(s[1..], sep);
        HeadGrows(s[0], s[1..], sep, rest[0], rest[1..]);
        var parts := [[s[0]] + rest[0]] + rest[1..];
        assert parts[0] == [s[0]] + rest[0] && parts[1..] == rest[1..];
      }
    }
  }

  lemma HeadGrows(c: char, tail: string, sep: char, first: string, others: seq<string>)
    requires c != sep && HeadIs(tail, sep, first, others)
    ensures HeadIs([c] + tail, sep, [c] + first, others)
  {
    if others != [] {
      assert ([c] + tail)[|[c] + first| + 1..] == tail[|first| + 1..];
    }
  }

  lemma DottedIff(s: string, ns: seq<nat>)
    ensures ParseAll(Split(s, '.')) == Some(ns) <==> Dotted(s, ns)
  {
    if ParseAll(Split(s, '.')) == Some(ns) { ParsedIsDotted(s, ns); }
    if Dotted(s, ns) { DottedParses(s, ns); }
  }

  lemma {:induction false} ParsedIsDotted(s: string, ns: seq<nat>)
    requires ParseAll(Split(s, '.')) == Some(ns)
    ensures Dotted(s, ns)
    decreases |s|
  {
    SplitHead(s, '.');
    var parts := Split(s, '.');
    NumeralIff(parts[0], ns[0]);
    if parts[1..] != [] {
      ParsedIsDotted(s[|parts[0]| + 1..], ns[1..]);
    }
  }

  lemma {:induction false} DottedParses(s: string, ns: seq<nat>)
    requires Dotted(s, ns)
    ensures ParseAll(Split(s, '.')) == Some(ns)
    decreases |ns|
  {
    if |ns| == 1 {
      NumeralHasNo(s, ns[0], '.');
      SplitWhole(s, '.');
      NumeralIff(s, ns[0]);
      OneParses(s, ns[0]);
      assert ns == [ns[0]];
    } else {
      var a: string, b: string :| s == a + ['.'] + b && Numeral(a, ns[0]) && Dotted(b, ns[1..]);
      DottedParses(b, ns[1..]);
      MoreParse(a, ns[0], b, ns[1..]);
      assert ns == [ns[0]] + ns[1..];
    }
  }

  lemma OneParses(s: string, n: nat)
    requires ParseU64(s) == Some(n)
    ensures ParseAll([s]) == Some([n])
  {
    assert ParseAll([]) == Some([]);
    ParseAllCons(s, [], n, []);
    assert [s] + [] == [s] && [n] + [] == [n];
  }

  lemma MoreParse(a: string, n: nat, b: string, ns: seq<nat>)
    requires Numeral(a, n) && ParseAll(Split(b, '.')) == Some(ns)
    ensures ParseAll(Split(a + ['.'] + b, '.')) == Some([n] + ns)
  {
    NumeralHasNo(a, n, '.');
    SplitAtFirst(a, '.', b);
    NumeralIff(a, n);
    ParseAllCons(a, Split(b, '.'), n, ns);
  }

  lemma {:induction false} Trimmed(s: string)
    ensures var t := TrimSlashes(s);
            && |t| <= |s| && t == s[|s| - |t|..] && Only(s[..|s| - |t|], '/') && (t != [] ==> t[0] != '/')
  {
    if s != [] && s[0] == '/' {
      Trimmed(s[1..]);
      var t := TrimSlashes(s);
      assert s[..|s| - |t|] == [s[0]] + s[1..][..|s[1..]| - |t|];
    }
  }

  lemma {:induction false} TrimsTo(lead: string, s: string)
    requires Only(lead, '/') && s != [] && s[0] != '/'
    ensures TrimSlashes(lead + s) == s
  {
    if lead == [] {
      assert lead + s == s;
    } else {
      TrimsTo(lead[1..], s);
      assert (lead + s)[1..] == lead[1..] + s;
    }
  }

  /** The second part of a split that has one, and what is left after it. */
  lemma SecondPart(s: string, sep: char) returns (second: string, rest: string)
    requires |Split(s, sep)| >= 2
    ensures second == Split(s, sep)[1] && sep !in Split(s, sep)[0]
    ensures s == Split(s, sep)[0] + [sep] + (second + rest) && (rest != [] ==> rest[0] == sep)
  {
    SplitHead(s, sep);
    var first, others := Split(s, sep)[0], Split(s, sep)[1..];
    assert HeadIs(s, sep, first, others) && others != [];
    var after := s[|first| + 1..];
    SplitHead(after, sep);
    second := others[0];
    rest := after[|second|..];
    assert after == second + rest;
  }

  lemma {:induction false} SecondOf(first: string, sep: char, second: string, rest: string)
    requires sep !in first && sep !in second && (rest != [] ==> rest[0] == sep)
    ensures var parts := Split(first + [sep] + (second + rest), sep); |parts| >= 2 && parts[0] == first && parts[1] == second
  {
    SplitAtFirst(first, sep, second + rest);
    if rest == [] {
      assert second + rest == second;
      SplitWhole(second, sep);
    } else {
      assert second + rest == second + [sep] + rest[1..];
      SplitAtFirst(second, sep, rest[1..]);
    }
  }

  lemma ParsedSpells(key: string, k: ChunkKey)
    requires Parse(key) == Some(k)
    ensures Spells(key, k)
  {
    var s := TrimSlashes(key);
    Trimmed(key);
    var dots, rest := SecondPart(s, '/');
    DottedIff(dots, k.indices);
    var lead := key[..|key| - |s|];
    assert key == lead + s;
    assert IsKey(key, k, lead, dots, rest);
  }

  lemma SpelledParses(key: string, k: ChunkKey)
    requires Spells(key, k)
    ensures Parse(key) == Some(k)
  {
    var lead: string, dots: string, rest: string :| IsKey(key, k, lead, dots, rest);
    var s := k.name + ['/'] + (dots + rest);
    assert s[0] == k.name[0];
    TrimsTo(lead, s);
    DottedHasNoSlash(dots, k.indices);
    SecondOf(k.name, '/', dots, rest);
    DottedIff(dots, k.indices);
  }

  lemma {:induction false} DottedHasNoSlash(s: string, ns: seq<nat>)
    requires Dotted(s, ns)
    ensures '/' !in s
    decreases |ns|
  {
    if |ns| == 1 {
      NumeralHasNo(s, ns[0], '/');
    } else {
      var a: string, b: string :| s == a + ['.'] + b && Numeral(a, ns[0]) && Dotted(b, ns[1..]);
      NumeralHasNo(a, ns[0], '/');
      DottedHasNoSlash(b, ns[1..]);
    }
  }

  /** The keys the parser accepts, and what it reads from each. */
  lemma ParseIff(key: string, k: ChunkKey)
    ensures Parse(key) == Some(k) <==> Spells(key, k)
  {
    if Parse(key) == Some(k) { ParsedSpells(key, k); }
    if Spells(key, k) { SpelledParses(key, k); }
  }

  /** The reference position a key stands for on a chunk grid. */
  function Position(key: string, grid: seq<nat>): Option<nat> {
    var k := Parse(key);
    if k.None? || |k.value.indices| != |grid| then None else Some(Flat(k.value.indices, grid))
  }

  /** Keys of chunks of the grid and reference positions correspond one to one. */
  lemma KeysArePositions(name: string, grid: seq<nat>, p: nat)
    requires name != [] && '/' !in name
    requires grid != [] && Positive(grid) && p < Product(grid)
    requires forall k :: 0 <= k < |grid| ==> grid[k] <= U64_MAX
    ensures var idx := Unflatten(p, grid);
            && InGrid(idx, grid)
            && Position(Render(ChunkKey(name, idx)), grid) == Some(p)
            && forall other :: InGrid(other, grid) && Position(Render(ChunkKey(name, other)), grid) == Some(p) ==> other == idx
  {
    var idx := Unflatten(p, grid);
    FlatInvertsKeys(p, grid);
    ParseRender(ChunkKey(name, idx));
    forall other | InGrid(other, grid) && Position(Render(ChunkKey(name, other)), grid) == Some(p) ensures other == idx {
      ParseRender(ChunkKey(name, other));
      FlatInjective(other, idx, grid);
    }
  }
}
