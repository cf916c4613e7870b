/** ID cells that hold an ID and a nickname together, as in "aa123(닉네임)": splitting such
    a cell (`normalize_id_from_mix`, `normalize_nick_from_mix`) and deciding from a sample
    whether a column is of that kind (`detect_mixed_id`). */
module MixedIds {
  import opened Optional
  import opened PyText

  /** A cell of the uploaded table: missing (pandas NaN) or holding text. */
  datatype Cell = Missing | Text(text: string)

  /** `str(x)` of a cell, as `astype(str)` renders it: a missing cell becomes "nan". */
  function AsText(c: Cell): string
  {
    match c
    case Missing => "nan"
    case Text(t) => t
  }

  predicate IsParen(c: char)
  {
    c == '(' || c == ')'
  }

  // ---------------------------------------------------------------- the ID part

  /** The longest prefix of `s` holding no parenthesis: what `[^()]+` runs over. */
  function BeforeParen(s: string): (r: string)
    ensures |r| <= |s| && r == s[..|r|]
    ensures forall k :: 0 <= k < |r| ==> !IsParen(r[k])
    ensures |r| < |s| ==> IsParen(s[|r|])
  {
    if s == [] || IsParen(s[0]) then [] else [s[0]] + BeforeParen(s[1..])
  }

  /** `normalize_id_from_mix`: the cell stripped, then `^\s*([^()]+)` matched at its start.
      On a stripped string `\s*` takes nothing, so the group is the parenthesis-free prefix
      and there is no match when that prefix is empty; the group, or else the whole
      stripped text, is stripped again. */
  function NormalizeIdFromMix(x: Cell): string
  {
    match x
    case Missing => ""
    case Text(t) =>
      var s := Strip(t);
      var g := BeforeParen(s);
      Strip(if g != [] then g else s)
  }

  /** A missing cell gives "". Otherwise the result is stripped; when the stripped text
      starts with a parenthesis (or is empty) it is that text unchanged; otherwise it is the
      stripped text before the first parenthesis, never empty and free of parentheses. */
  lemma NormalizeIdMeaning(x: Cell)
    ensures x.Missing? ==> NormalizeIdFromMix(x) == ""
    ensures IsStripped(NormalizeIdFromMix(x))
    ensures x.Text? ==>
              var s := Strip(x.text);
              var r := NormalizeIdFromMix(x);
              (s == [] || IsParen(s[0]) ==> r == s) &&
              (s != [] && !IsParen(s[0]) ==>
                 r == Strip(BeforeParen(s)) && r != [] && '(' !in r && ')' !in r)
  {
    if x.Text? {
      var s := Strip(x.text);
      var g := BeforeParen(s);
      if s == [] || IsParen(s[0]) {
        assert g == [];
        StripStripped(s);
      } else {
        assert g[0] == s[0];
        assert !AllSpace(g);
        StripAddsNothing(g, '(');
        StripAddsNothing(g, ')');
      }
    }
  }

  /** Stripping adds no character. */
  lemma {:induction false} StripAddsNothing(s: string, c: char)
    requires c !in s
    ensures c !in Strip(s)
    decreases |s|
  {
    if s != [] && IsSpace(s[0]) {
      StripAddsNothing(s[1..], c);
    } else if s != [] && IsSpace(s[|s| - 1]) {
      StripAddsNothing(s[..|s| - 1], c);
    }
  }

  // ---------------------------------------------------------------- the nickname part

  /** `s[i]` opens and `s[j]` closes a group that `\((.*?)\)` matches: no `)` and no line
      break (which `.` does not match) in between. The lazy `.*?` stops at the first `)`. */
  predicate GroupAt(s: string, i: int, j: int)
  {
    0 <= i < j < |s| && s[i] == '(' && s[j] == ')' &&
    forall k :: i < k < j ==> s[k] != ')' && s[k] != '\n'
  }

  /** The first `)` from `j` on, unless a line break comes first. */
  function CloseFrom(s: string, j: nat): (r: Option<nat>)
    ensures r.Some? ==> j <= r.value < |s| && s[r.value] == ')'
    ensures r.Some? ==> forall k :: j <= k < r.value ==> s[k] != ')' && s[k] != '\n'
    decreases |s| - j
  {
    if j >= |s| || s[j] == '\n' then None
    else if s[j] == ')' then Some(j)
    else CloseFrom(s, j + 1)
  }

  /** `re.search(r"\((.*?)\)", s[i:])`: the leftmost group from `i` on, as the positions of
      its two parentheses. */
  function GroupFrom(s: string, i: nat): (r: Option<(nat, nat)>)
    ensures r.Some? ==> i <= r.value.0 && GroupAt(s, r.value.0, r.value.1)
    decreases |s| - i
  {
    if i >= |s| then None
    else if s[i] == '(' && CloseFrom(s, i + 1).Some? then Some((i, CloseFrom(s, i + 1).value))
    else GroupFrom(s, i + 1)
  }

  /** `normalize_nick_from_mix`: the stripped inside of the first group of the stripped
      cell, or "" when there is none or the cell is missing. */
  function NormalizeNickFromMix(x: Cell): string
  {
    match x
    case Missing => ""
    case Text(t) =>
      var s := Strip(t);
      match GroupFrom(s, 0)
      case None => ""
      case Some((i, j)) => Strip(s[i + 1..j])
  }

  /** An opening parenthesis has at most one closing partner. */
  lemma {:induction false} CloseFromFinds(s: string, i: nat, j: nat)
    requires GroupAt(s, i, j)
    ensures CloseFrom(s, i + 1) == Some(j)
  {
    CloseFromReaches(s, i + 1, j);
  }

  lemma {:induction false} CloseFromReaches(s: string, m: nat, j: nat)
    requires m <= j < |s| && s[j] == ')'
    requires forall k :: m <= k < j ==> s[k] != ')' && s[k] != '\n'
    ensures CloseFrom(s, m) == Some(j)
    decreases j - m
  {
    if m < j {
      CloseFromReaches(s, m + 1, j);
    }
  }

  /** The search finds the leftmost group from `i` on, and finds one whenever one exists. */
  lemma {:induction false} GroupFromLeftmost(s: string, i: nat, a: nat, b: nat)
    requires i <= a && GroupAt(s, a, b)
    ensures GroupFrom(s, i).Some? && GroupFrom(s, i).value.0 <= a
    decreases a - i
  {
    if i < a && !(s[i] == '(' && CloseFrom(s, i + 1).Some?) {
      GroupFromLeftmost(s, i + 1, a, b);
    } else if i == a {
      CloseFromFinds(s, a, b);
    }
  }

  /** The nickname is the stripped inside of the leftmost group of the stripped cell, and ""
      when the cell is missing or has no group. */
  lemma NormalizeNickMeaning(x: Cell)
    ensures x.Missing? ==> NormalizeNickFromMix(x) == ""
    ensures IsStripped(NormalizeNickFromMix(x))
    ensures x.Text? && (forall a, b :: !GroupAt(Strip(x.text), a, b)) ==>
              NormalizeNickFromMix(x) == ""
    ensures x.Text? ==>
              var s := Strip(x.text);
              forall a, b :: FirstGroupAt(s, a, b) ==> NormalizeNickFromMix(x) == Strip(s[a + 1..b])
  {
    if x.Text? {
      var s := Strip(x.text);
      if forall a, b :: !GroupAt(s, a, b) {
        NoGroupFound(s);
      }
      forall a, b | FirstGroupAt(s, a, b)
        ensures NormalizeNickFromMix(x) == Strip(s[a + 1..b])
      {
        GroupFromLeftmost(s, 0, a, b);
        var g := GroupFrom(s, 0).value;
        assert g.0 == a;
        CloseFromFinds(s, a, b);
        CloseFromFinds(s, a, g.1);
      }
    }
  }

  /** Without any group the search finds none. */
  lemma NoGroupFound(s: string)
    requires forall a, b :: !GroupAt(s, a, b)
    ensures GroupFrom(s, 0).None?
  {
  }

  /** The group opened at `a` and closed at `b` is the leftmost one. */
  predicate FirstGroupAt(s: string, a: int, b: int)
  {
    GroupAt(s, a, b) && forall a', b' :: 0 <= a' < a && a' < b' < |s| ==> !GroupAt(s, a', b')
  }

  // ---------------------------------------------------------------- detection

  /** How many non-missing values `detect_mixed_id` looks at by default. */
  const SampleSize: nat := 200

  /** The texts of the non-missing cells, in order: `series.dropna().astype(str)`. */
  function Present(series: seq<Cell>): (r: seq<string>)
    ensures |r| <= |series|
  {
    if series == [] then []
    else (if series[0].Text? then [series[0].text] else []) + Present(series[1..])
  }

  /** `.head(n)` of the non-missing texts. */
  function Sample(series: seq<Cell>, n: nat): (vals: seq<string>)
    ensures |vals| <= n
  {
    var p := Present(series);
    if |p| <= n then p else p[..n]
  }

  /** `"(" in v and ")" in v and v.find("(") < v.find(")")`: the first `(` comes before the
      first `)`. */
  predicate HasParenPair(v: string)
  {
    '(' in v && ')' in v && FirstIndex(v, '(') < FirstIndex(v, ')')
  }

  /** How many values have a parenthesis pair. */
  function Hits(vals: seq<string>): (n: nat)
    ensures n <= |vals|
  {
    if vals == [] then 0 else (if HasParenPair(vals[0]) then 1 else 0) + Hits(vals[1..])
  }

  /** `detect_mixed_id(series)` with the default sample of 200 and threshold 0.3. The ratio
      test `hit / len(vals) >= 0.3` is `hit * 10 >= 3 * len(vals)`; with at most 200 values
      no ratio lies close enough to 0.3 for the floating-point rounding to decide it. */
  predicate DetectMixedId(series: seq<Cell>)
  {
    var vals := Sample(series, SampleSize);
    |vals| > 0 && Hits(vals) * 10 >= 3 * |vals|
  }

  lemma {:induction false} HitsAll(vals: seq<string>)
    requires forall k :: 0 <= k < |vals| ==> HasParenPair(vals[k])
    ensures Hits(vals) == |vals|
  {
    if vals != [] {
      HitsAll(vals[1..]);
    }
  }

  lemma {:induction false} HitsNone(vals: seq<string>)
    requires forall k :: 0 <= k < |vals| ==> !HasParenPair(vals[k])
    ensures Hits(vals) == 0
  {
    if vals != [] {
      HitsNone(vals[1..]);
    }
  }

  /** A column whose sampled values all have a parenthesis pair is mixed; one whose sampled
      values have none, or that has no value at all, is not. */
  lemma DetectExtremes(series: seq<Cell>)
    ensures var vals := Sample(series, SampleSize);
            (vals != [] && (forall k :: 0 <= k < |vals| ==> HasParenPair(vals[k])) ==>
               DetectMixedId(series)) &&
            ((forall k :: 0 <= k < |vals| ==> !HasParenPair(vals[k])) ==> !DetectMixedId(series))
  {
    var vals := Sample(series, SampleSize);
    if forall k :: 0 <= k < |vals| ==> HasParenPair(vals[k]) {
      HitsAll(vals);
    }
    if forall k :: 0 <= k < |vals| ==> !HasParenPair(vals[k]) {
      HitsNone(vals);
    }
  }

  lemma {:induction false} PresentAppend(a: seq<Cell>, b: seq<Cell>)
    ensures Present(a + b) == Present(a) + Present(b)
  {
    if a != [] {
      assert (a + b)[0] == a[0];
      assert (a + b)[1..] == a[1..] + b;
      PresentAppend(a[1..], b);
    } else {
      assert a + b == b;
    }
  }

  /** Missing cells are dropped before sampling: they do not change the decision. */
  lemma MissingIgnored(a: seq<Cell>, b: seq<Cell>)
    ensures DetectMixedId(a + [Missing] + b) == DetectMixedId(a + b)
  {
    PresentAppend(a, [Missing]);
    PresentAppend(a + [Missing], b);
    PresentAppend(a, b);
    assert Present([Missing]) == [];
    assert Present(a) + [] == Present(a);
    assert Present(a + [Missing] + b) == Present(a + b);
  }

  /** Only the first 200 values count: what follows them does not change the decision. */
  lemma SampleIgnoresTail(a: seq<Cell>, b: seq<Cell>)
    requires |Present(a)| >= SampleSize
    ensures DetectMixedId(a + b) == DetectMixedId(a)
  {
    PresentAppend(a, b);
    var p := Present(a);
    assert (p + Present(b))[..SampleSize] == p[..SampleSize];
    assert Sample(a + b, SampleSize) == Sample(a, SampleSize);
  }

  /** A value written as an ID followed by a parenthesised nickname has a parenthesis pair,
      so a column of such values is detected as mixed. */
  lemma {:induction false} MixedCellHasPair(id: string, nick: string)
    requires '(' !in id && ')' !in id
    ensures HasParenPair(id + "(" + nick + ")")
  {
    var v := id + "(" + nick + ")";
    assert v[|id|] == '(' && v[|v| - 1] == ')';
    assert v[..|id|] == id;
    assert FirstIndex(v, '(') == |id|;
  }

  // ---------------------------------------------------------------- both parts

  /** A cell written as an ID followed by a nickname in parentheses splits back into the two,
      each stripped. */
  lemma {:induction false} SplitMixedCell(id: string, nick: string)
    requires id != [] && !IsSpace(id[0]) && '(' !in id && ')' !in id
    requires ')' !in nick && '\n' !in nick
    ensures NormalizeIdFromMix(Text(id + "(" + nick + ")")) == Strip(id)
    ensures NormalizeNickFromMix(Text(id + "(" + nick + ")")) == Strip(nick)
  {
    var s := id + "(" + nick + ")";
    assert IsStripped(s);
    StripStripped(s);
    BeforeParenPrefix(id, "(" + nick + ")");
    assert s == id + ("(" + nick + ")");
    assert GroupAt(s, |id|, |s| - 1);
    assert s[|id| + 1..|s| - 1] == nick;
    forall a', b' | 0 <= a' < |id| && a' < b' < |s|
      ensures !GroupAt(s, a', b')
    {
      assert s[a'] == id[a'];
    }
    assert FirstGroupAt(s, |id|, |s| - 1);
    NormalizeNickMeaning(Text(s));
  }

  /** `[^()]+` runs over a parenthesis-free text up to the parenthesis after it. */
  lemma {:induction false} BeforeParenPrefix(id: string, rest: string)
    requires '(' !in id && ')' !in id && rest != [] && IsParen(rest[0])
    ensures BeforeParen(id + rest) == id
  {
    if id != [] {
      assert (id + rest)[1..] == id[1..] + rest;
      assert '(' !in id[1..] && ')' !in id[1..];
      BeforeParenPrefix(id[1..], rest);
    } else {
      assert id + rest == rest;
    }
  }

  /** "aa123(닉네임)" holds the ID "aa123" and the nickname "닉네임". */
  lemma SplitExample()
    ensures NormalizeIdFromMix(Text("aa123(닉네임)")) == "aa123"
    ensures NormalizeNickFromMix(Text("aa123(닉네임)")) == "닉네임"
  {
    ExampleCell();
    assert Strip("aa123") == "aa123" by {
      StripStripped("aa123");
    }
    assert Strip("닉네임") == "닉네임" by {
      StripStripped("닉네임");
    }
    SplitMixedCell("aa123", "닉네임");
  }

  lemma ExampleCell()
    ensures "aa123" + "(" + "닉네임" + ")" == "aa123(닉네임)"
  {
    var s := "aa123" + "(" + "닉네임" + ")";
    assert forall i | 0 <= i < 10 :: s[i] == "aa123(닉네임)"[i];
  }
}
