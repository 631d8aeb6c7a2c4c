/** The city keys of `countByCity` and `getByCategoryAndCity`.

    The parameter is keyed in Java: `toLowerCase()`, then every maximal run
    of `\s` characters becomes one `_`. The stored city is keyed in SQL:
    `LOWER(REPLACE(addressCity, ' ', '_'))`, which replaces each single space
    and nothing else. The two keys agree exactly on cities whose only
    whitespace is single spaces. */
module CityKey {
  import opened ClinicRepository

  /** `\s` in a Java regex without the Unicode flag: space, tab, line feed,
      vertical tab, form feed, carriage return. */
  predicate IsJavaSpace(c: char) {
    c == ' ' || c == '\t' || c == '\n' || c == '\U{000B}' || c == '\U{000C}' || c == '\r'
  }

  predicate NoWhitespace(s: string) {
    forall i :: 0 <= i < |s| ==> !IsJavaSpace(s[i])
  }

  /** `Character.toLowerCase` on Latin-1: A–Z and À–Þ (except ×) move down
      by 0x20; every other character is its own lower case. */
  function Lower(c: char): (r: char)
    ensures IsJavaSpace(r) <==> IsJavaSpace(c)
    ensures r == '_' <==> c == '_'
  {
    if 'A' <= c <= 'Z' || ('\U{00C0}' <= c <= '\U{00DE}' && c != '\U{00D7}')
    then (c as int + 0x20) as char
    else c
  }

  lemma LowerIdempotent(c: char)
    ensures Lower(Lower(c)) == Lower(c)
  {
  }

  function LowerString(s: string): (r: string)
    ensures |r| == |s|
    ensures forall i :: 0 <= i < |s| ==> r[i] == Lower(s[i])
  {
    if |s| == 0 then [] else [Lower(s[0])] + LowerString(s[1..])
  }

  /** Every character is its own lower case. */
  predicate AllLower(s: string) {
    forall i :: 0 <= i < |s| ==> Lower(s[i]) == s[i]
  }

  /** `s` without its leading whitespace. */
  function DropSpaces(s: string): (r: string)
    ensures |r| <= |s| && r == s[|s| - |r|..]
    ensures |r| > 0 ==> !IsJavaSpace(r[0])
    ensures |s| > 0 && !IsJavaSpace(s[0]) ==> r == s
  {
    if |s| > 0 && IsJavaSpace(s[0]) then DropSpaces(s[1..]) else s
  }

  /** `replaceAll("\\s+", "_")`: each maximal whitespace run becomes `_`. */
  function Collapse(s: string): (r: string)
    ensures |r| <= |s|
    decreases |s|
  {
    if |s| == 0 then []
    else if IsJavaSpace(s[0]) then "_" + Collapse(DropSpaces(s[1..]))
    else [s[0]] + Collapse(s[1..])
  }

  /** The Java-side key of a city parameter. */
  function NormalizeCity(city: string): string {
    Collapse(LowerString(city))
  }

  /** The SQL-side key of a stored city: `LOWER(REPLACE(city, ' ', '_'))`.
      The database's `LOWER` is taken to fold each character exactly as
      Java's `toLowerCase` does, through the same `Lower`. */
  function DbCityKey(city: string): (r: string)
    ensures |r| == |city|
    ensures forall i :: 0 <= i < |city| ==> r[i] == (if city[i] == ' ' then '_' else Lower(city[i]))
  {
    if |city| == 0 then [] else [if city[0] == ' ' then '_' else Lower(city[0])] + DbCityKey(city[1..])
  }

  // ----- properties of the Java-side key -----

  lemma {:induction false} CollapseNoWhitespace(s: string)
    ensures NoWhitespace(Collapse(s))
    decreases |s|
  {
    if |s| > 0 {
      if IsJavaSpace(s[0]) {
        var t := DropSpaces(s[1..]);
        CollapseNoWhitespace(t);
        CollapseSpaceHead(s);
        NoWhitespaceCons('_', Collapse(t));
      } else {
        CollapseNoWhitespace(s[1..]);
        CollapseKeepHead(s);
        NoWhitespaceCons(s[0], Collapse(s[1..]));
      }
    }
  }

  lemma NoWhitespaceCons(c: char, t: string)
    requires !IsJavaSpace(c) && NoWhitespace(t)
    ensures NoWhitespace([c] + t)
  {
  }

  lemma {:induction false} CollapseKeepsLower(s: string)
    requires AllLower(s)
    ensures AllLower(Collapse(s))
    decreases |s|
  {
    if |s| > 0 {
      if IsJavaSpace(s[0]) {
        var t := DropSpaces(s[1..]);
        assert forall i :: 0 <= i < |t| ==> t[i] == s[1..][|s[1..]| - |t| + i];
        CollapseKeepsLower(t);
      } else {
        CollapseKeepsLower(s[1..]);
      }
    }
  }

  /** A string without whitespace is left alone by the run replacement. */
  lemma {:induction false} CollapseIdentity(s: string)
    requires NoWhitespace(s)
    ensures Collapse(s) == s
  {
    if |s| > 0 {
      CollapseIdentity(s[1..]);
    }
  }

  lemma LowerStringIdentity(s: string)
    requires AllLower(s)
    ensures LowerString(s) == s
  {
  }

  /** The key has no whitespace left and is all lower case. */
  lemma NormalizeCityShape(city: string)
    ensures NoWhitespace(NormalizeCity(city))
    ensures AllLower(NormalizeCity(city))
  {
    var l := LowerString(city);
    CollapseNoWhitespace(l);
    forall i | 0 <= i < |l|
      ensures Lower(l[i]) == l[i]
    {
      LowerIdempotent(city[i]);
    }
    CollapseKeepsLower(l);
  }

  /** Normalising a key again gives the same key. */
  lemma NormalizeCityIdempotent(city: string)
    ensures NormalizeCity(NormalizeCity(city)) == NormalizeCity(city)
  {
    var k := NormalizeCity(city);
    NormalizeCityShape(city);
    LowerStringIdentity(k);
    CollapseIdentity(k);
  }

  /** Each maximal whitespace run of a city becomes one `_`, wherever it
      stands: between words, at the start or at the end. Cutting the city
      at one such run cuts its key at the matching `_`. */
  lemma NormalizeCitySplit(a: string, run: string, b: string)
    requires |run| > 0 && forall i :: 0 <= i < |run| ==> IsJavaSpace(run[i])
    requires |a| > 0 ==> !IsJavaSpace(a[|a| - 1])
    requires |b| > 0 ==> !IsJavaSpace(b[0])
    ensures NormalizeCity(a + run + b) == NormalizeCity(a) + "_" + NormalizeCity(b)
  {
    var la, lr, lb := LowerString(a), LowerString(run), LowerString(b);
    LowerStringAppend(a, run);
    LowerStringAppend(a + run, b);
    LowerKeepsSpaces(run);
    CollapseSplit(la, lr, lb);
  }

  /** A run of whitespace of any length and kind between two words gives
      one `_`. */
  lemma NormalizeCityRun(a: string, run: string, b: string)
    requires NoWhitespace(a) && NoWhitespace(b) && |run| > 0
    requires forall i :: 0 <= i < |run| ==> IsJavaSpace(run[i])
    ensures NormalizeCity(a + run + b) == LowerString(a) + "_" + LowerString(b)
  {
    NormalizeCitySplit(a, run, b);
    LowerKeepsSpaces(a);
    LowerKeepsSpaces(b);
    CollapseIdentity(LowerString(a));
    CollapseIdentity(LowerString(b));
  }

  lemma LowerStringAppend(x: string, y: string)
    ensures LowerString(x + y) == LowerString(x) + LowerString(y)
  {
  }

  lemma LowerKeepsSpaces(x: string)
    ensures NoWhitespace(x) ==> NoWhitespace(LowerString(x))
    ensures (forall i :: 0 <= i < |x| ==> IsJavaSpace(x[i])) ==>
      forall i :: 0 <= i < |x| ==> IsJavaSpace(LowerString(x)[i])
  {
  }

  /** The run replacement splits at a maximal whitespace run. */
  lemma CollapseSplit(a: string, run: string, b: string)
    requires |run| > 0 && forall i :: 0 <= i < |run| ==> IsJavaSpace(run[i])
    requires |a| > 0 ==> !IsJavaSpace(a[|a| - 1])
    requires |b| > 0 ==> !IsJavaSpace(b[0])
    ensures Collapse(a + run + b) == Collapse(a) + "_" + Collapse(b)
  {
    AppendAssoc(a, run, b);
    CollapseAppend(a, run + b);
    CollapseRunFirst(run, b);
    AppendAssoc(Collapse(a), "_", Collapse(b));
  }

  /** The run replacement works on each side of a boundary that is not
      inside a whitespace run. */
  lemma {:induction false} CollapseAppend(x: string, y: string)
    requires |x| > 0 ==> !IsJavaSpace(x[|x| - 1])
    ensures Collapse(x + y) == Collapse(x) + Collapse(y)
    decreases |x|
  {
    if |x| == 0 {
      assert x + y == y;
    } else if !IsJavaSpace(x[0]) {
      CollapseAppend(x[1..], y);
      CollapseKeepStep(x, y);
    } else {
      var x' := DropSpaces(x[1..]);
      DropSpacesAppend(x[1..], y);
      CollapseAppend(x', y);
      CollapseSpaceStep(x, y);
    }
  }

  /** A leading non-space character is kept, given the law for the rest. */
  lemma CollapseKeepStep(x: string, y: string)
    requires |x| > 0 && !IsJavaSpace(x[0])
    requires Collapse(x[1..] + y) == Collapse(x[1..]) + Collapse(y)
    ensures Collapse(x + y) == Collapse(x) + Collapse(y)
  {
    var s := x + y;
    TailAppend(x, y);
  }

  /** A leading whitespace run becomes one `_`, given the law for the rest. */
  lemma CollapseSpaceStep(x: string, y: string)
    requires |x| > 0 && IsJavaSpace(x[0])
    requires DropSpaces(x[1..] + y) == DropSpaces(x[1..]) + y
    requires Collapse(DropSpaces(x[1..]) + y) == Collapse(DropSpaces(x[1..])) + Collapse(y)
    ensures Collapse(x + y) == Collapse(x) + Collapse(y)
  {
    var s := x + y;
    var d := DropSpaces(x[1..]);
    TailAppend(x, y);
    CollapseSpaceHead(s);
    CollapseSpaceHead(x);
    AppendAssoc("_", Collapse(d), Collapse(y));
  }

  /** A non-space character at the front is kept. */
  lemma CollapseKeepHead(s: string)
    requires |s| > 0 && !IsJavaSpace(s[0])
    ensures Collapse(s) == [s[0]] + Collapse(s[1..])
  {
  }

  /** One whitespace run at the front is one `_`. */
  lemma CollapseSpaceHead(s: string)
    requires |s| > 0 && IsJavaSpace(s[0])
    ensures Collapse(s) == "_" + Collapse(DropSpaces(s[1..]))
  {
  }

  /** A whitespace run in front of the rest becomes one `_`. */
  lemma CollapseRunFirst(run: string, b: string)
    requires |run| > 0 && forall i :: 0 <= i < |run| ==> IsJavaSpace(run[i])
    requires |b| > 0 ==> !IsJavaSpace(b[0])
    ensures Collapse(run + b) == "_" + Collapse(b)
  {
    var s := run + b;
    TailAppend(run, b);
    DropRun(run[1..], b);
  }

  lemma AppendAssoc<T>(p: seq<T>, q: seq<T>, r: seq<T>)
    ensures p + q + r == p + (q + r)
  {
  }

  lemma TailAppend<T>(x: seq<T>, y: seq<T>)
    requires |x| > 0
    ensures (x + y)[0] == x[0] && (x + y)[1..] == x[1..] + y
  {
  }

  /** Dropping leading whitespace stops inside `x` when `x` ends in a
      non-space, so what follows `x` is kept whole. */
  lemma {:induction false} DropSpacesAppend(x: string, y: string)
    requires |x| > 0 && !IsJavaSpace(x[|x| - 1])
    ensures DropSpaces(x + y) == DropSpaces(x) + y
    ensures |DropSpaces(x)| > 0 && DropSpaces(x)[|DropSpaces(x)| - 1] == x[|x| - 1]
  {
    if IsJavaSpace(x[0]) {
      TailAppend(x, y);
      DropSpacesAppend(x[1..], y);
    } else {
      assert (x + y)[0] == x[0];
    }
  }

  lemma {:induction false} DropRun(run: string, b: string)
    requires forall i :: 0 <= i < |run| ==> IsJavaSpace(run[i])
    requires |b| > 0 ==> !IsJavaSpace(b[0])
    ensures DropSpaces(run + b) == b
  {
    if |run| > 0 {
      assert (run + b)[1..] == run[1..] + b;
      DropRun(run[1..], b);
    } else {
      assert run + b == b;
    }
  }

  // ----- when the two keys agree -----

  /** The only whitespace in `s` is single spaces. */
  predicate SingleSpaced(s: string) {
    forall i :: 0 <= i < |s| && IsJavaSpace(s[i]) ==>
      s[i] == ' ' && (i + 1 < |s| ==> !IsJavaSpace(s[i + 1]))
  }

  lemma {:induction false} AgreeWhenSingleSpaced(s: string)
    requires SingleSpaced(s)
    ensures Collapse(LowerString(s)) == DbCityKey(s)
  {
    if |s| > 0 {
      var l := LowerString(s);
      assert l[1..] == LowerString(s[1..]);
      assert SingleSpaced(s[1..]) by {
        forall i | 0 <= i < |s[1..]| && IsJavaSpace(s[1..][i])
          ensures s[1..][i] == ' ' && (i + 1 < |s[1..]| ==> !IsJavaSpace(s[1..][i + 1]))
        {
          assert s[1..][i] == s[i + 1];
        }
      }
      AgreeWhenSingleSpaced(s[1..]);
      if IsJavaSpace(s[0]) && |s| > 1 {
        assert !IsJavaSpace(l[1..][0]);
      }
    }
  }

  lemma {:induction false} SingleSpacedWhenAgree(s: string)
    requires Collapse(LowerString(s)) == DbCityKey(s)
    ensures SingleSpaced(s)
  {
    if |s| > 0 {
      var l := LowerString(s);
      var rest := s[1..];
      assert l[1..] == LowerString(rest);
      assert DbCityKey(s)[1..] == DbCityKey(rest);
      if IsJavaSpace(s[0]) {
        var t := DropSpaces(LowerString(rest));
        assert Collapse(l) == "_" + Collapse(t);
        assert s[0] == ' ';
        assert Collapse(t) == DbCityKey(rest);
        if |rest| > 0 && IsJavaSpace(rest[0]) {
          assert false;
        }
        assert t == LowerString(rest);
        SingleSpacedWhenAgree(rest);
        SingleSpacedCons(s);
      } else {
        assert Collapse(l) == [l[0]] + Collapse(LowerString(rest));
        SingleSpacedWhenAgree(rest);
        SingleSpacedCons(s);
      }
    }
  }

  lemma SingleSpacedCons(s: string)
    requires |s| > 0 && SingleSpaced(s[1..])
    requires IsJavaSpace(s[0]) ==> s[0] == ' ' && (|s| > 1 ==> !IsJavaSpace(s[1]))
    ensures SingleSpaced(s)
  {
    forall i | 0 <= i < |s| && IsJavaSpace(s[i])
      ensures s[i] == ' ' && (i + 1 < |s| ==> !IsJavaSpace(s[i + 1]))
    {
      if i > 0 {
        assert s[i] == s[1..][i - 1];
        if i + 1 < |s| {
          assert s[i + 1] == s[1..][i];
        }
      }
    }
  }

  /** The Java key of a city equals the database key of the same city
      exactly when its only whitespace is single spaces. */
  lemma KeysAgreeIff(city: string)
    ensures NormalizeCity(city) == DbCityKey(city) <==> SingleSpaced(city)
  {
    if SingleSpaced(city) {
      AgreeWhenSingleSpaced(city);
    }
    if NormalizeCity(city) == DbCityKey(city) {
      SingleSpacedWhenAgree(city);
    }
  }

  // ----- the two counting queries, as written -----

  /** `countByCity(city)`: rows whose database key equals the Java key of
      the parameter. */
  function CountByCity(rows: seq<ClinicEntity>, city: string): (n: nat)
    ensures n <= |rows|
  {
    if |rows| == 0 then 0
    else (if DbCityKey(rows[0].addressCity) == NormalizeCity(city) then 1 else 0) + CountByCity(rows[1..], city)
  }

  /** `getByCategoryAndCity(category, city)`: the same key comparison, and
      the category. */
  function CountByCategoryAndCity(rows: seq<ClinicEntity>, category: Category, city: string): (n: nat)
    ensures n <= CountByCity(rows, city)
  {
    if |rows| == 0 then 0
    else (if DbCityKey(rows[0].addressCity) == NormalizeCity(city) && rows[0].category == category then 1 else 0)
         + CountByCategoryAndCity(rows[1..], category, city)
  }

  /** A clinic stored in "San  Luis" (two spaces) is not counted when
      asking for "San  Luis". */
  lemma DoubleSpaceNotCounted(c: ClinicEntity)
    requires c.addressCity == "San  Luis"
    ensures CountByCity([c], "San  Luis") == 0
    ensures CountByCategoryAndCity([c], c.category, "San  Luis") == 0
  {
    var s := "San  Luis";
    assert !SingleSpaced(s) by {
      assert IsJavaSpace(s[3]) && IsJavaSpace(s[4]);
    }
    KeysAgreeIff(s);
  }

  // ----- the two counting queries, with one key on both sides -----

  /** `countByCity` with the parameter keyed the way the database keys the
      stored city. */
  function CountByCityFixed(rows: seq<ClinicEntity>, city: string): (n: nat)
    ensures n <= |rows|
  {
    if |rows| == 0 then 0
    else (if DbCityKey(rows[0].addressCity) == DbCityKey(city) then 1 else 0) + CountByCityFixed(rows[1..], city)
  }

  function CountByCategoryAndCityFixed(rows: seq<ClinicEntity>, category: Category, city: string): (n: nat)
    ensures n <= CountByCityFixed(rows, city)
  {
    if |rows| == 0 then 0
    else (if DbCityKey(rows[0].addressCity) == DbCityKey(city) && rows[0].category == category then 1 else 0)
         + CountByCategoryAndCityFixed(rows[1..], category, city)
  }

  /** The number of rows whose city is literally `city`. */
  function CountExactCity(rows: seq<ClinicEntity>, city: string): nat {
    if |rows| == 0 then 0
    else (if rows[0].addressCity == city then 1 else 0) + CountExactCity(rows[1..], city)
  }

  /** With one key on both sides every clinic is counted under its own
      city, whatever its spacing. */
  lemma {:induction false} FixedCountsOwnCity(rows: seq<ClinicEntity>, city: string)
    ensures CountByCityFixed(rows, city) >= CountExactCity(rows, city)
  {
    if |rows| > 0 {
      FixedCountsOwnCity(rows[1..], city);
    }
  }

  /** And the same for the category-and-city count. */
  lemma {:induction false} FixedCategoryCountsOwnCity(rows: seq<ClinicEntity>, c: ClinicEntity)
    requires c in rows
    ensures CountByCategoryAndCityFixed(rows, c.category, c.addressCity) > 0
  {
    if rows[0] != c {
      FixedCategoryCountsOwnCity(rows[1..], c);
    }
  }

  /** On single-spaced parameters the two versions count the same rows. */
  lemma {:induction false} FixedAgreesWhenSingleSpaced(rows: seq<ClinicEntity>, city: string)
    requires SingleSpaced(city)
    ensures CountByCityFixed(rows, city) == CountByCity(rows, city)
  {
    KeysAgreeIff(city);
    if |rows| > 0 {
      FixedAgreesWhenSingleSpaced(rows[1..], city);
    }
  }

  /** The same agreement for the category-and-city count: on a single-spaced
      city the as-written query counts exactly what the corrected one does. */
  lemma {:induction false} FixedCategoryAgreesWhenSingleSpaced(rows: seq<ClinicEntity>, category: Category, city: string)
    requires SingleSpaced(city)
    ensures CountByCategoryAndCityFixed(rows, category, city) == CountByCategoryAndCity(rows, category, city)
  {
    KeysAgreeIff(city);
    if |rows| > 0 {
      FixedCategoryAgreesWhenSingleSpaced(rows[1..], category, city);
    }
  }
}
