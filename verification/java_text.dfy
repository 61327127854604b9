/**
 * The slice of java.lang.String and java.lang.Long behaviour that the upload
 * parser relies on: `trim`, `split(",")`, `replace(",", ", ")`,
 * `Long.parseLong` and the decimal rendering of integers.
 */
module JavaText {
  import opened Wrappers

  const MinLong: int := -0x8000_0000_0000_0000
  const MaxLong: int := 0x7FFF_FFFF_FFFF_FFFF

  /** Java's 64-bit signed `long`. */
  type Long = x: int | MinLong <= x <= MaxLong

  // ---------------------------------------------------------------------------
  // String.trim
  // ---------------------------------------------------------------------------

  /** `String.trim` treats every char whose code is at most U+0020 as white space. */
  predicate Trimmable(c: char) {
    c <= ' '
  }

  /** Drops the leading white space. */
  function TrimStart(s: string): (r: string)
    ensures |r| <= |s| && r == s[|s| - |r|..]
    ensures forall k :: 0 <= k < |s| - |r| ==> Trimmable(s[k])
    ensures r == [] || !Trimmable(r[0])
  {
    if s != [] && Trimmable(s[0]) then TrimStart(s[1..]) else s
  }

  /** Drops the trailing white space. */
  function TrimEnd(s: string): (r: string)
    ensures |r| <= |s| && r == s[..|r|]
    ensures forall k :: |r| <= k < |s| ==> Trimmable(s[k])
    ensures r == [] || !Trimmable(r[|r| - 1])
  {
    if s != [] && Trimmable(s[|s| - 1]) then TrimEnd(s[..|s| - 1]) else s
  }

  /** `String.trim`. */
  function Trim(s: string): (r: string)
    ensures r == [] || (!Trimmable(r[0]) && !Trimmable(r[|r| - 1]))
    ensures r == [] <==> forall k :: 0 <= k < |s| ==> Trimmable(s[k])
  {
    var t := TrimStart(s);
    assert t != [] ==> t[0] == s[|s| - |t|];
    TrimEnd(t)
  }

  /** Where the slice that `trim` keeps starts and ends. */
  lemma TrimBounds(s: string) returns (i: nat, j: nat)
    ensures i <= j <= |s| && Trim(s) == s[i..j]
    ensures forall k :: 0 <= k < i ==> Trimmable(s[k])
    ensures forall k :: j <= k < |s| ==> Trimmable(s[k])
  {
    var t := TrimStart(s);
    var r := TrimEnd(t);
    i := |s| - |t|;
    j := i + |r|;
    PrefixOfSuffix(s, i, t, |r|);
    TrimmableAfter(s, i, t, |r|);
  }

  /** The first `n` chars of the suffix of `s` from `i` are the slice `s[i..i + n]`. */
  lemma PrefixOfSuffix(s: string, i: nat, t: string, n: nat)
    requires i <= |s| && t == s[i..] && n <= |t|
    ensures s[i..i + n] == t[..n]
  {
  }

  /** White space after index `n` of the suffix `t` is white space after index `i + n` of `s`. */
  lemma TrimmableAfter(s: string, i: nat, t: string, n: nat)
    requires i <= |s| && t == s[i..]
    requires forall k :: n <= k < |t| ==> Trimmable(t[k])
    ensures forall k :: i + n <= k < |s| ==> Trimmable(s[k])
  {
    forall k | i + n <= k < |s| ensures Trimmable(s[k]) {
      assert s[k] == t[k - i];
    }
  }

  /**
   * `trim` keeps a slice of the input: exactly the white space before the
   * slice and after it is removed.
   */
  lemma TrimIsSlice(s: string)
    ensures exists i, j :: 0 <= i <= j <= |s| && Trim(s) == s[i..j]
                           && (forall k :: 0 <= k < i ==> Trimmable(s[k]))
                           && (forall k :: j <= k < |s| ==> Trimmable(s[k]))
  {
    var i, j := TrimBounds(s);
  }

  /** The string holds nothing but white space. */
  predicate IsBlank(s: string) {
    forall k :: 0 <= k < |s| ==> Trimmable(s[k])
  }

  /** `"".equals(s.trim())` holds exactly for blank strings. */
  lemma BlankIffTrimsToEmpty(s: string)
    ensures IsBlank(s) <==> Trim(s) == []
  {
  }

  /** Trimming twice is trimming once. */
  lemma TrimIdempotent(s: string)
    ensures Trim(Trim(s)) == Trim(s)
  {
    var t := Trim(s);
    assert TrimStart(t) == t;
    assert TrimEnd(t) == t;
  }

  /** A leading blank never survives `trim`. */
  lemma TrimLeadingSpace(s: string)
    ensures Trim([' '] + s) == Trim(s)
  {
    assert ([' '] + s)[1..] == s;
  }

  // ---------------------------------------------------------------------------
  // Splitting on ','
  // ---------------------------------------------------------------------------

  /** The number of commas in `s`. */
  function CommaCount(s: string): nat {
    if s == [] then 0 else (if s[0] == ',' then 1 else 0) + CommaCount(s[1..])
  }

  lemma {:induction false} CommaCountZero(s: string)
    ensures CommaCount(s) == 0 <==> ',' !in s
  {
    if s != [] {
      CommaCountZero(s[1..]);
      assert s == [s[0]] + s[1..];
    }
  }

  /** Joins fields with a comma between each two of them. */
  function Join(fields: seq<string>): string
    requires fields != []
  {
    if |fields| == 1 then fields[0] else fields[0] + [','] + Join(fields[1..])
  }

  /** `n` empty fields. */
  function Empties(n: nat): (fs: seq<string>)
    ensures |fs| == n && forall i :: 0 <= i < n ==> fs[i] == []
  {
    seq(n, _ => [])
  }

  /**
   * Splits at every comma and keeps every field, empty or not: the number of
   * fields is always the number of commas plus one.
   */
  function SplitAll(s: string): (fields: seq<string>)
    ensures |fields| == CommaCount(s) + 1
  {
    if s == [] then [[]]
    else
      var rest := SplitAll(s[1..]);
      assert s == [s[0]] + s[1..];
      if s[0] == ',' then [[]] + rest
      else
        var fields := [[s[0]] + rest[0]] + rest[1..];
        assert fields[1..] == rest[1..];
        fields
  }

  /** No field that `SplitAll` yields holds a comma. */
  lemma {:induction false} SplitAllNoComma(s: string)
    ensures forall i :: 0 <= i < |SplitAll(s)| ==> ',' !in SplitAll(s)[i]
  {
    if s != [] {
      SplitAllNoComma(s[1..]);
      SplitAllCons(s[0], s[1..]);
      assert s == [s[0]] + s[1..];
    }
  }

  /** `Join` undoes `SplitAll`. */
  lemma {:induction false} JoinSplitAll(s: string)
    ensures Join(SplitAll(s)) == s
  {
    if s != [] {
      JoinSplitAll(s[1..]);
      SplitAllCons(s[0], s[1..]);
      assert s == [s[0]] + s[1..];
    }
  }

  /** Splitting a string that starts with a comma-free field. */
  lemma {:induction false} SplitAllAfterField(a: string, b: string)
    requires ',' !in a
    ensures SplitAll(a + [','] + b) == [a] + SplitAll(b)
  {
    if a == [] {
      assert ([','] + b)[1..] == b;
    } else {
      assert (a + [','] + b)[1..] == a[1..] + [','] + b;
      SplitAllAfterField(a[1..], b);
      assert [a[0]] + a[1..] == a;
    }
  }

  /** `SplitAll` undoes `Join` when no field holds a comma. */
  lemma {:induction false} SplitAllJoin(fields: seq<string>)
    requires fields != []
    requires forall i :: 0 <= i < |fields| ==> ',' !in fields[i]
    ensures SplitAll(Join(fields)) == fields
  {
    if |fields| == 1 {
      SplitAllWithoutComma(fields[0]);
    } else {
      SplitAllJoin(fields[1..]);
      SplitAllAfterField(fields[0], Join(fields[1..]));
    }
  }

  /** A string without a comma is one field. */
  lemma {:induction false} SplitAllWithoutComma(s: string)
    requires ',' !in s
    ensures SplitAll(s) == [s]
  {
    if s != [] {
      SplitAllWithoutComma(s[1..]);
      assert [s[0]] + s[1..] == s;
    }
  }

  /** Drops the trailing empty fields, as `String.split` does. */
  function DropTrailingEmpty(fields: seq<string>): (r: seq<string>)
    ensures |r| <= |fields| && r == fields[..|r|]
    ensures r == [] || r[|r| - 1] != []
    ensures forall i :: |r| <= i < |fields| ==> fields[i] == []
  {
    if fields != [] && fields[|fields| - 1] == [] then DropTrailingEmpty(fields[..|fields| - 1])
    else fields
  }

  /**
   * `String.split(",")`: a string without a comma is returned whole (so `""`
   * gives one empty field); otherwise every field in order, with the trailing
   * empty fields dropped and the leading ones kept.
   */
  function JavaSplit(s: string): (fields: seq<string>)
    ensures ',' !in s ==> fields == [s]
    ensures ',' in s ==> fields == DropTrailingEmpty(SplitAll(s))
  {
    if ',' !in s then [s] else DropTrailingEmpty(SplitAll(s))
  }

  /** What `split(",")` returns: fields without a comma, and a string without a comma as its only field. */
  lemma JavaSplitMeaning(s: string)
    ensures forall i :: 0 <= i < |JavaSplit(s)| ==> ',' !in JavaSplit(s)[i]
    ensures ',' !in s ==> JavaSplit(s) == [s]
  {
    if ',' in s {
      KeptFieldsNoComma(s, JavaSplit(s));
    }
  }

  /**
   * `split(",")` of a string with a comma: no field or a last field that is
   * not empty, and padding the fields with the dropped empty ones joins back
   * to the string.
   */
  lemma JavaSplitWithComma(s: string)
    requires ',' in s
    ensures JavaSplit(s) == [] || JavaSplit(s)[|JavaSplit(s)| - 1] != []
    ensures |JavaSplit(s)| <= CommaCount(s) + 1
    ensures Join(JavaSplit(s) + Empties(CommaCount(s) + 1 - |JavaSplit(s)|)) == s
  {
    PaddedFieldsJoin(s, JavaSplit(s));
  }

  /** The fields `split(",")` keeps have no comma. */
  lemma KeptFieldsNoComma(s: string, fields: seq<string>)
    requires fields == DropTrailingEmpty(SplitAll(s))
    ensures forall i :: 0 <= i < |fields| ==> ',' !in fields[i]
  {
    SplitAllNoComma(s);
    assert forall i :: 0 <= i < |fields| ==> fields[i] == SplitAll(s)[i];
  }

  /** The fields `split(",")` keeps, padded with the empty ones it dropped, join back to the string. */
  lemma PaddedFieldsJoin(s: string, fields: seq<string>)
    requires fields == DropTrailingEmpty(SplitAll(s))
    ensures |fields| <= CommaCount(s) + 1
    ensures Join(fields + Empties(CommaCount(s) + 1 - |fields|)) == s
  {
    var all := SplitAll(s);
    JoinSplitAll(s);
    DroppedFieldsAreEmpty(all, fields);
  }

  /** The fields a trailing-empty drop removes are exactly the empty ones padded back on. */
  lemma DroppedFieldsAreEmpty(all: seq<string>, kept: seq<string>)
    requires |kept| <= |all| && kept == all[..|kept|]
    requires forall i :: |kept| <= i < |all| ==> all[i] == []
    ensures all == kept + Empties(|all| - |kept|)
  {
    var pad := Empties(|all| - |kept|);
    assert forall i :: 0 <= i < |all| ==> all[i] == (kept + pad)[i];
  }

  /** `String.replace(",", ", ")`: a blank after every comma. */
  function ReplaceComma(s: string): (r: string)
    ensures CommaCount(r) == CommaCount(s)
  {
    if s == [] then []
    else
      var r := (if s[0] == ',' then [',', ' '] else [s[0]]) + ReplaceComma(s[1..]);
      assert s[0] == ',' ==> r[1..] == [' '] + ReplaceComma(s[1..]) && r[1..][1..] == ReplaceComma(s[1..]);
      assert s[0] != ',' ==> r[1..] == ReplaceComma(s[1..]);
      r
  }

  /** How `SplitAll` sees the first char of a non-empty string. */
  lemma SplitAllCons(c: char, x: string)
    ensures SplitAll([c] + x) ==
              if c == ',' then [[]] + SplitAll(x)
              else [[c] + SplitAll(x)[0]] + SplitAll(x)[1..]
  {
    assert ([c] + x)[1..] == x;
  }

  /** `a` is `b` with a blank put in front of every field but the first. */
  predicate Shifted(a: seq<string>, b: seq<string>) {
    && |a| == |b| >= 1
    && a[0] == b[0]
    && forall i :: 1 <= i < |b| ==> a[i] == [' '] + b[i]
  }

  lemma ShiftedAfterComma(h: seq<string>, g: seq<string>)
    requires Shifted(h, g)
    ensures Shifted([[]] + ([[' '] + h[0]] + h[1..]), [[]] + g)
  {
    var a := [[]] + ([[' '] + h[0]] + h[1..]);
    var b := [[]] + g;
    forall i | 1 <= i < |b| ensures a[i] == [' '] + b[i] {
      if i >= 2 {
        assert a[i] == h[i - 1];
      }
    }
  }

  lemma ShiftedAfterChar(c: char, h: seq<string>, g: seq<string>)
    requires Shifted(h, g)
    ensures Shifted([[c] + h[0]] + h[1..], [[c] + g[0]] + g[1..])
  {
    var a := [[c] + h[0]] + h[1..];
    forall i | 1 <= i < |a| ensures a[i] == [' '] + ([[c] + g[0]] + g[1..])[i] {
      assert a[i] == h[i];
    }
  }

  /** After `ReplaceComma`, every field but the first starts with a blank. */
  lemma {:induction false} SplitAllOfReplaceComma(s: string)
    ensures Shifted(SplitAll(ReplaceComma(s)), SplitAll(s))
  {
    if s != [] {
      SplitAllOfReplaceComma(s[1..]);
      if s[0] == ',' {
        ShiftedStepComma(s);
      } else {
        ShiftedStepChar(s);
      }
    }
  }

  /** A leading comma becomes `, `: an empty first field, then a blank before the next one. */
  lemma ShiftedStepComma(s: string)
    requires s != [] && s[0] == ','
    requires Shifted(SplitAll(ReplaceComma(s[1..])), SplitAll(s[1..]))
    ensures Shifted(SplitAll(ReplaceComma(s)), SplitAll(s))
  {
    var r' := ReplaceComma(s[1..]);
    var x := [' '] + r';
    assert s == [','] + s[1..];
    assert ReplaceComma(s) == [','] + x;
    SplitAllCons(',', s[1..]);
    SplitAllCons(',', x);
    SplitAllCons(' ', r');
    ShiftedAfterComma(SplitAll(r'), SplitAll(s[1..]));
  }

  /** Any other leading char is kept, and joins the first field on both sides. */
  lemma ShiftedStepChar(s: string)
    requires s != [] && s[0] != ','
    requires Shifted(SplitAll(ReplaceComma(s[1..])), SplitAll(s[1..]))
    ensures Shifted(SplitAll(ReplaceComma(s)), SplitAll(s))
  {
    var r' := ReplaceComma(s[1..]);
    assert s == [s[0]] + s[1..];
    assert ReplaceComma(s) == [s[0]] + r';
    SplitAllCons(s[0], s[1..]);
    SplitAllCons(s[0], r');
    ShiftedAfterChar(s[0], SplitAll(r'), SplitAll(s[1..]));
  }


  /**
   * The `line.replace(",", ", ").split(",")` idiom splits at every comma and
   * keeps every field: after trimming, its fields are exactly those of
   * `SplitAll`, and there is one more field than there are commas.
   */
  lemma SplitOfReplaceComma(s: string)
    ensures |JavaSplit(ReplaceComma(s))| == CommaCount(s) + 1
    ensures forall i :: 0 <= i < |SplitAll(s)| ==>
              Trim(JavaSplit(ReplaceComma(s))[i]) == Trim(SplitAll(s)[i])
  {
    SplitAllOfReplaceComma(s);
    CommaCountZero(s);
    CommaCountZero(ReplaceComma(s));
    if ',' in s {
      NothingDroppedAfterReplace(s);
      ShiftedTrims(SplitAll(ReplaceComma(s)), SplitAll(s));
    } else {
      SplitAllWithoutComma(s);
      SplitAllWithoutComma(ReplaceComma(s));
    }
  }

  /** Once a blank follows every comma, the last field is not empty, so `split` drops nothing. */
  lemma NothingDroppedAfterReplace(s: string)
    requires ',' in s
    ensures JavaSplit(ReplaceComma(s)) == SplitAll(ReplaceComma(s))
  {
    CommaKeptByReplace(s);
    LastFieldAfterReplace(s);
    LastFieldKept(SplitAll(ReplaceComma(s)));
  }

  lemma CommaKeptByReplace(s: string)
    requires ',' in s
    ensures ',' in ReplaceComma(s)
  {
    CommaCountZero(s);
    CommaCountZero(ReplaceComma(s));
  }

  /** After `replace(",", ", ")` on a line with a comma, the last field starts with a blank. */
  lemma LastFieldAfterReplace(s: string)
    requires ',' in s
    ensures var sp := SplitAll(ReplaceComma(s));
            sp != [] && sp[|sp| - 1] != []
  {
    var g := SplitAll(s);
    var sp := SplitAll(ReplaceComma(s));
    CommaCountZero(s);
    assert |g| >= 2;
    SplitAllOfReplaceComma(s);
    assert sp[|sp| - 1] == [' '] + g[|g| - 1];
  }

  /** A non-empty last field keeps every field. */
  lemma LastFieldKept(fields: seq<string>)
    requires fields != [] && fields[|fields| - 1] != []
    ensures DropTrailingEmpty(fields) == fields
  {
  }

  /** A leading blank on a field makes no difference once trimmed. */
  lemma ShiftedTrims(a: seq<string>, b: seq<string>)
    requires Shifted(a, b)
    ensures forall i :: 0 <= i < |b| ==> Trim(a[i]) == Trim(b[i])
  {
    forall i | 1 <= i < |b| ensures Trim(a[i]) == Trim(b[i]) {
      TrimLeadingSpace(b[i]);
    }
  }

  // ---------------------------------------------------------------------------
  // Decimal numbers: Long.parseLong and Long.toString
  // ---------------------------------------------------------------------------

  predicate IsDigit(c: char) {
    '0' <= c <= '9'
  }

  predicate AllDigits(s: string) {
    forall i :: 0 <= i < |s| ==> IsDigit(s[i])
  }

  /** The value of a string of decimal digits, most significant first. */
  function DigitsValue(s: string): nat
    requires AllDigits(s)
  {
    if s == [] then 0
    else 10 * DigitsValue(s[..|s| - 1]) + (s[|s| - 1] as int - '0' as int)
  }

  function Digit(d: nat): (c: char)
    requires d < 10
    ensures IsDigit(c) && c as int - '0' as int == d
  {
    (d + '0' as int) as char
  }

  /** The decimal digits of `n`, without leading zeros. */
  function NatToString(n: nat): string {
    if n < 10 then [Digit(n)] else NatToString(n / 10) + [Digit(n % 10)]
  }

  /** The rendering of `n` is a non-empty string of digits whose value is `n`. */
  lemma {:induction false} NatToStringDigits(n: nat)
    ensures var s := NatToString(n);
            s != [] && AllDigits(s) && DigitsValue(s) == n
  {
    if n >= 10 {
      NatToStringDigits(n / 10);
      var s := NatToString(n);
      assert s[..|s| - 1] == NatToString(n / 10);
    }
  }

  /** `Long.toString` (and Java's `"" + n` for any integer). */
  function LongToString(v: int): string {
    if v < 0 then ['-'] + NatToString(-v) else NatToString(v)
  }

  /**
   * `Long.parseLong`: an optional `-` or `+` followed by at least one ASCII
   * digit, whose value lies in the range of `long`; `None` stands for
   * `NumberFormatException`.
   */
  function ParseLong(s: string): (r: Option<Long>)
    ensures r.Some? ==> s != [] && AllDigits(if s[0] == '-' || s[0] == '+' then s[1..] else s)
    ensures r.Some? && s[0] == '-' ==> r.value <= 0
  {
    if s == [] then None
    else if s[0] == '-' || s[0] == '+' then
      var digits := s[1..];
      if digits == [] || !AllDigits(digits) then None
      else
        var n: int := DigitsValue(digits);
        var v := if s[0] == '-' then -n else n;
        if MinLong <= v <= MaxLong then Some(v) else None
    else if AllDigits(s) && DigitsValue(s) <= MaxLong then Some(DigitsValue(s))
    else None
  }

  /** `Long.parseLong(Long.toString(v)) == v` for every `long`. */
  lemma ParseLongToString(v: Long)
    ensures ParseLong(LongToString(v)) == Some(v)
  {
    var s := LongToString(v);
    NatToStringDigits(if v < 0 then -(v as int) else v as int);
    if v < 0 {
      assert s[1..] == NatToString(-(v as int));
    } else {
      assert IsDigit(s[0]);
    }
  }
}
