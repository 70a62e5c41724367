/** Placeholder substitution in cmd/revelt/template.go: one strings.ReplaceAll a
    key, in whatever order the map yields its keys. */
module Templates {
  function Placeholder(key: string): string {
    "{{" + key + "}}"
  }

  /** strings.ReplaceAll for a nonempty pattern: leftmost matches, no overlap. */
  function ReplaceAll(text: string, pattern: string, value: string): string
    requires pattern != []
    decreases |text|
  {
    if text == [] then []
    else if pattern <= text then value + ReplaceAll(text[|pattern|..], pattern, value)
    else [text[0]] + ReplaceAll(text[1..], pattern, value)
  }

  /** The same, one key after another. */
  function ReplaceInOrder(text: string, keys: seq<string>, vars: map<string, string>): string
    requires forall key | key in keys :: key in vars
  {
    if keys == [] then text
    else
      var last := keys[|keys| - 1];
      ReplaceAll(ReplaceInOrder(text, keys[..|keys| - 1], vars), Placeholder(last), vars[last])
  }

  // ----- Simultaneous substitution -----

  /** Keys hold no braces, so a placeholder ends at its first closing brace. */
  ghost predicate PlainKeys(keys: set<string>) {
    forall key | key in keys :: '{' !in key && '}' !in key
  }

  ghost predicate PlainValues(vars: map<string, string>) {
    forall key | key in vars :: '{' !in vars[key]
  }

  ghost predicate Matches(text: string, keys: set<string>) {
    exists key | key in keys :: Placeholder(key) <= text
  }

  ghost function Matched(text: string, keys: set<string>): (key: string)
    requires Matches(text, keys)
    ensures key in keys && Placeholder(key) <= text
  {
    var key :| key in keys && Placeholder(key) <= text;
    key
  }

  /** Every placeholder of the original text replaced at once; values are not
      looked at again. */
  ghost function Substitute(text: string, vars: map<string, string>): string
    decreases |text|
  {
    if text == [] then []
    else if Matches(text, vars.Keys) then
      var key := Matched(text, vars.Keys);
      vars[key] + Substitute(text[|Placeholder(key)|..], vars)
    else [text[0]] + Substitute(text[1..], vars)
  }

  /** At most one plain key matches at a place. */
  lemma MatchUnique(text: string, a: string, b: string)
    requires PlainKeys({a, b}) && Placeholder(a) <= text && a != b
    ensures !(Placeholder(b) <= text)
  {
    var p, q := Placeholder(a), Placeholder(b);
    if |a| < |b| {
      assert b[|a|] in b && q[2 + |a|] == b[|a|] && text[2 + |a|] == p[2 + |a|] == '}';
    } else if |b| < |a| {
      assert a[|b|] in a && q[2 + |b|] == '}' && text[2 + |b|] == p[2 + |b|] == a[|b|];
    } else {
      var i :| 0 <= i < |a| && a[i] != b[i];
      assert q[2 + i] == b[i] && text[2 + i] == p[2 + i] == a[i];
    }
  }

  /** Past its first brace, a placeholder has no two opening braces in a row. */
  lemma OneOpening(key: string, i: nat)
    requires PlainKeys({key}) && 0 < i < |Placeholder(key)|
    ensures Placeholder(key)[i] != '{' || (i == 1 && Placeholder(key)[2] != '{')
  {
    if 2 <= i < 2 + |key| {
      assert Placeholder(key)[i] == key[i - 2] && key[i - 2] in key;
    }
    if key != [] {
      assert Placeholder(key)[2] == key[0] && key[0] in key;
    }
  }

  /** Placeholders of plain keys do not overlap. */
  lemma NoOverlap(text: string, a: string, b: string, i: nat)
    requires PlainKeys({a, b}) && Placeholder(a) <= text && 0 < i < |Placeholder(a)|
    ensures !(Placeholder(b) <= text[i..])
  {
    OneOpening(a, i);
    assert text[i] == Placeholder(a)[i] && Placeholder(b)[0] == '{' && Placeholder(b)[1] == '{';
    if i == 1 {
      assert text[2] == Placeholder(a)[2];
      assert |text[i..]| >= 2 ==> text[i..][1] == text[2];
    }
  }

  /** Text without an opening brace is copied as it is. */
  lemma {:induction false} CopyThrough(v: string, text: string, vars: map<string, string>)
    requires '{' !in v
    ensures Substitute(v + text, vars) == v + Substitute(text, vars)
  {
    if v == [] {
      assert v + text == text;
    } else {
      assert (v + text)[0] == v[0] && v[0] in v;
      forall key | key in vars ensures !(Placeholder(key) <= v + text) {
        assert Placeholder(key)[0] == '{';
      }
      assert (v + text)[1..] == v[1..] + text;
      CopyThrough(v[1..], text, vars);
    }
  }

  lemma NoMatchInside(key: string, j: nat, text: string, other: string)
    requires PlainKeys({key, other}) && key != other && j < |Placeholder(key)|
    ensures !(Placeholder(other) <= Placeholder(key)[j..] + text)
  {
    var whole := Placeholder(key) + text;
    assert whole[j..] == Placeholder(key)[j..] + text;
    if j == 0 {
      MatchUnique(whole, key, other);
    } else {
      NoOverlap(whole, key, other, j);
    }
  }

  lemma NothingMatchesInside(key: string, j: nat, text: string, keys: set<string>)
    requires key !in keys && PlainKeys(keys) && PlainKeys({key}) && j < |Placeholder(key)|
    ensures !Matches(Placeholder(key)[j..] + text, keys)
  {
    forall other | other in keys ensures !(Placeholder(other) <= Placeholder(key)[j..] + text) {
      NoMatchInside(key, j, text, other);
    }
  }

  /** The rest of another key's placeholder is copied as it is. */
  lemma {:induction false} CopyPlaceholder(key: string, j: nat, text: string, vars: map<string, string>)
    requires key !in vars && PlainKeys(vars.Keys) && PlainKeys({key}) && j <= |Placeholder(key)|
    ensures Substitute(Placeholder(key)[j..] + text, vars) == Placeholder(key)[j..] + Substitute(text, vars)
    decreases |Placeholder(key)| - j
  {
    var tail := Placeholder(key)[j..];
    if tail == [] {
      assert tail + text == text;
    } else {
      var rest := Placeholder(key)[j + 1..];
      NothingMatchesInside(key, j, text, vars.Keys);
      assert tail == [tail[0]] + rest;
      assert (tail + text)[1..] == rest + text;
      CopyPlaceholder(key, j + 1, text, vars);
      assert tail + Substitute(text, vars) == [tail[0]] + (rest + Substitute(text, vars));
    }
  }

  lemma CopyAtHead(text: string, b: string, vars: map<string, string>)
    requires PlainKeys(vars.Keys + {b}) && b !in vars && Placeholder(b) <= text
    ensures Substitute(text, vars) == Placeholder(b) + Substitute(text[|Placeholder(b)|..], vars)
    ensures Substitute(text, vars)[|Placeholder(b)|..] == Substitute(text[|Placeholder(b)|..], vars)
  {
    var rest := text[|Placeholder(b)|..];
    assert text == Placeholder(b)[0..] + rest;
    CopyPlaceholder(b, 0, rest, vars);
  }

  // ----- When order does not matter -----

  /** The text spells `want` once the placeholders of `blank` are dropped: all of
      it, or, opening braces included, up to a placeholder for one of `open`,
      whose value may bring the rest. */
  ghost predicate Spells(text: string, want: string, blank: set<string>, open: set<string>)
    decreases |text|
  {
    if Matches(text, blank) then Spells(text[|Placeholder(Matched(text, blank))|..], want, blank, open)
    else
      || want == []
      || ('{' !in want && Matches(text, open))
      || (text != [] && text[0] == want[0] && Spells(text[1..], want[1..], blank, open))
  }

  /** The text does not start with a placeholder for `k`, but values for the other
      keys, empty ones for `blank`, can make it do so. */
  ghost predicate Arises(text: string, k: string, blank: set<string>, keys: set<string>) {
    !Matches(text, blank + {k}) && Spells(text, Placeholder(k), blank, keys - blank - {k})
  }

  /** No placeholder arises anywhere. */
  ghost predicate Clean(text: string, keys: set<string>) {
    forall i: nat, k, blank | i < |text| && k in keys && blank <= keys - {k} :: !Arises(text[i..], k, blank, keys)
  }

  lemma {:induction false} SpellsNothing(text: string, blank: set<string>, open: set<string>)
    ensures Spells(text, [], blank, open)
    decreases |text|
  {
    if Matches(text, blank) {
      SpellsNothing(text[|Placeholder(Matched(text, blank))|..], blank, open);
    }
  }

  lemma NoMatchWithin(text: string, c: string, i: nat, keys: set<string>)
    requires PlainKeys(keys + {c}) && Placeholder(c) <= text && 0 < i < |Placeholder(c)|
    ensures !Matches(text[i..], keys)
  {
    forall key | key in keys ensures !(Placeholder(key) <= text[i..]) {
      NoOverlap(text, c, key, i);
    }
  }

  /** Past the opening braces of a placeholder, only that one is spelt. */
  lemma {:induction false} SpellsSameKey(
    text: string, c: string, k: string, j: nat, blank: set<string>, open: set<string>)
    requires PlainKeys(blank + open + {c, k}) && Placeholder(c) <= text
    requires 2 <= j <= 2 + |c| && j <= 2 + |k| && c[..j - 2] == k[..j - 2]
    requires Spells(text[j..], Placeholder(k)[j..], blank, open)
    ensures c == k
    decreases |c| + 2 - j
  {
    NoMatchWithin(text, c, j, blank + open);
    assert !Matches(text[j..], blank) && !Matches(text[j..], open);
    assert text[j..][0] == text[j] == Placeholder(c)[j] && Placeholder(k)[j..][0] == Placeholder(k)[j];
    assert j < 2 + |c| ==> Placeholder(c)[j] == c[j - 2] && c[j - 2] in c;
    assert j < 2 + |k| ==> Placeholder(k)[j] == k[j - 2] && k[j - 2] in k;
    if j < 2 + |c| {
      assert text[j..][1..] == text[j + 1..] && Placeholder(k)[j..][1..] == Placeholder(k)[j + 1..];
      assert c[..j - 1] == c[..j - 2] + [c[j - 2]] && k[..j - 1] == k[..j - 2] + [k[j - 2]];
      SpellsSameKey(text, c, k, j + 1, blank, open);
    } else {
      assert c[..j - 2] == c && k[..j - 2] == k;
    }
  }

  /** A spelling does not step into another key's placeholder. */
  lemma NotSpeltInside(text: string, c: string, k: string, j: nat, blank: set<string>, open: set<string>)
    requires PlainKeys(blank + open + {c, k}) && Placeholder(c) <= text && c != k && j <= 1
    ensures !Spells(text[1..], Placeholder(k)[j + 1..], blank, open)
  {
    NoMatchWithin(text, c, 1, blank + open);
    assert !Matches(text[1..], blank) && !Matches(text[1..], open);
    assert text[1..][0] == text[1] == Placeholder(c)[1] == '{';
    if Spells(text[1..], Placeholder(k)[j + 1..], blank, open) {
      assert Placeholder(k)[j + 1..][0] == Placeholder(k)[j + 1];
      OneOpening(k, j + 1);
      assert j == 0;
      assert text[1..][1..] == text[2..] && Placeholder(k)[1..][1..] == Placeholder(k)[2..];
      SpellsSameKey(text, c, k, 2, blank, open);
      assert false;
    }
  }

  /** Values without opening braces let the text start with (the end of) a
      placeholder only if it spells that. */
  lemma {:induction false} SubstituteSpells(
    text: string, vars: map<string, string>, k: string, j: nat, blank: set<string>, open: set<string>)
    requires PlainKeys(vars.Keys + {k}) && PlainValues(vars) && j <= |Placeholder(k)|
    requires blank <= vars.Keys <= blank + open && forall key | key in vars :: key in blank <==> vars[key] == []
    requires Placeholder(k)[j..] <= Substitute(text, vars)
    ensures Spells(text, Placeholder(k)[j..], blank, open)
    decreases |text|
  {
    var want := Placeholder(k)[j..];
    if want == [] {
      SpellsNothing(text, blank, open);
    } else if Matches(text, blank) {
      var b := Matched(text, blank);
      MatchedIs(text, vars.Keys, b);
      SubstituteSpells(text[|Placeholder(b)|..], vars, k, j, blank, open);
    } else if Matches(text, vars.Keys) {
      var value := vars[Matched(text, vars.Keys)];
      assert Substitute(text, vars)[0] == value[0] && value[0] in value;
      NoOpeningIn(k, j);
    } else {
      assert want[1..] == Placeholder(k)[j + 1..];
      assert want[0] == Substitute(text, vars)[0];
      assert want[1..] <= Substitute(text, vars)[1..];
      SubstituteSpells(text[1..], vars, k, j + 1, blank, open);
    }
  }

  /** From a character on that is no opening brace, a placeholder has none. */
  lemma NoOpeningIn(k: string, j: nat)
    requires PlainKeys({k}) && j < |Placeholder(k)| && Placeholder(k)[j] != '{'
    ensures '{' !in Placeholder(k)[j..]
  {
    if '{' in Placeholder(k)[j..] {
      var i :| j <= i < |Placeholder(k)| && Placeholder(k)[i] == '{';
      assert i > 0;
      OneOpening(k, i);
      assert false;
    }
  }

  /** Where `first` has no placeholder, its values complete none of `second`. */
  ghost predicate NoNew(text: string, first: map<string, string>, second: set<string>) {
    forall i: nat, k | i < |text| && k in second && !Matches(text[i..], first.Keys) ::
      Placeholder(k) <= Substitute(text[i..], first) ==> Placeholder(k) <= text[i..]
  }

  lemma NoNewSuffix(text: string, n: nat, first: map<string, string>, second: set<string>)
    requires n <= |text| && NoNew(text, first, second)
    ensures NoNew(text[n..], first, second)
  {
    forall i: nat, k | i < |text[n..]| && k in second && !Matches(text[n..][i..], first.Keys)
      ensures Placeholder(k) <= Substitute(text[n..][i..], first) ==> Placeholder(k) <= text[n..][i..]
    {
      assert text[n..][i..] == text[n + i..];
    }
  }

  lemma NoNewHere(text: string, first: map<string, string>, second: set<string>)
    requires text != [] && NoNew(text, first, second) && !Matches(text, first.Keys) && !Matches(text, second)
    ensures !Matches(Substitute(text, first), second)
  {
    assert text[0..] == text;
  }

  /** Substituting in two rounds is substituting at once, where the first
      completes no placeholder for the second. */
  lemma {:induction false} TwoRounds(text: string, first: map<string, string>, second: map<string, string>)
    requires first.Keys !! second.Keys && PlainKeys(first.Keys + second.Keys)
    requires PlainValues(first) && NoNew(text, first, second.Keys)
    ensures Substitute(Substitute(text, first), second) == Substitute(text, first + second)
    decreases |text|
  {
    if text == [] {
    } else if Matches(text, first.Keys) {
      var n := |Placeholder(Matched(text, first.Keys))|;
      NoNewSuffix(text, n, first, second.Keys);
      TwoRounds(text[n..], first, second);
      RoundsPastFirst(text, first, second);
    } else if Matches(text, second.Keys) {
      var n := |Placeholder(Matched(text, second.Keys))|;
      NoNewSuffix(text, n, first, second.Keys);
      TwoRounds(text[n..], first, second);
      RoundsPastSecond(text, first, second);
    } else {
      NoNewHere(text, first, second.Keys);
      NoNewSuffix(text, 1, first, second.Keys);
      TwoRounds(text[1..], first, second);
      assert Substitute(text, first)[1..] == Substitute(text[1..], first);
    }
  }

  lemma RoundsPastFirst(text: string, first: map<string, string>, second: map<string, string>)
    requires first.Keys !! second.Keys && PlainKeys(first.Keys + second.Keys) && PlainValues(first)
    requires Matches(text, first.Keys)
    requires var rest := text[|Placeholder(Matched(text, first.Keys))|..];
             Substitute(Substitute(rest, first), second) == Substitute(rest, first + second)
    ensures Substitute(Substitute(text, first), second) == Substitute(text, first + second)
  {
    var a := Matched(text, first.Keys);
    MatchedIs(text, (first + second).Keys, a);
    CopyThrough(first[a], Substitute(text[|Placeholder(a)|..], first), second);
  }

  lemma RoundsPastSecond(text: string, first: map<string, string>, second: map<string, string>)
    requires first.Keys !! second.Keys && PlainKeys(first.Keys + second.Keys)
    requires Matches(text, second.Keys)
    requires var rest := text[|Placeholder(Matched(text, second.Keys))|..];
             Substitute(Substitute(rest, first), second) == Substitute(rest, first + second)
    ensures Substitute(Substitute(text, first), second) == Substitute(text, first + second)
  {
    var k := Matched(text, second.Keys);
    MatchedIs(text, (first + second).Keys, k);
    CopyAtHead(text, k, first);
    MatchedIs(Substitute(text, first), second.Keys, k);
  }

  lemma MatchedIs(text: string, keys: set<string>, key: string)
    requires PlainKeys(keys) && key in keys && Placeholder(key) <= text
    ensures Matches(text, keys) && Matched(text, keys) == key
  {
    var other := Matched(text, keys);
    if other != key {
      MatchUnique(text, key, other);
    }
  }

  lemma {:induction false} ReplaceIsSubstitute(text: string, key: string, value: string)
    ensures ReplaceAll(text, Placeholder(key), value) == Substitute(text, map[key := value])
    decreases |text|
  {
    if text == [] {
    } else {
      if Placeholder(key) <= text {
        assert Matches(text, map[key := value].Keys);
        ReplaceIsSubstitute(text[|Placeholder(key)|..], key, value);
      } else {
        ReplaceIsSubstitute(text[1..], key, value);
      }
    }
  }

  // ----- Every order of the keys -----

  /** An order in which a map may yield its keys. */
  ghost predicate IsOrder(keys: seq<string>, all: set<string>) {
    && (forall i, j | 0 <= i < j < |keys| :: keys[i] != keys[j])
    && (forall key :: key in keys <==> key in all)
  }

  function Restrict(vars: map<string, string>, keys: seq<string>): map<string, string> {
    map key | key in vars && key in keys :: vars[key]
  }

  /** Behind a clean text, replacing key by key in any order is replacing all at
      once: the order in which the map yields its keys does not show. */
  lemma {:induction false} OrderDoesNotMatter(text: string, keys: seq<string>, vars: map<string, string>)
    requires PlainKeys(vars.Keys) && PlainValues(vars) && Clean(text, vars.Keys)
    requires forall key | key in keys :: key in vars
    requires forall i, j | 0 <= i < j < |keys| :: keys[i] != keys[j]
    ensures ReplaceInOrder(text, keys, vars) == Substitute(text, Restrict(vars, keys))
  {
    if keys == [] {
      CopyAll(text, Restrict(vars, keys));
    } else {
      var n := |keys| - 1;
      OrderDoesNotMatter(text, keys[..n], vars);
      OneMoreKey(text, Restrict(vars, keys[..n]), keys[n], vars);
      assert keys == keys[..n] + [keys[n]];
      assert Restrict(vars, keys[..n])[keys[n] := vars[keys[n]]] == Restrict(vars, keys);
    }
  }

  lemma OneMoreKey(text: string, first: map<string, string>, key: string, vars: map<string, string>)
    requires PlainKeys(vars.Keys) && PlainValues(vars) && Clean(text, vars.Keys)
    requires first.Keys <= vars.Keys && (forall k | k in first :: first[k] == vars[k])
    requires key in vars && key !in first
    ensures ReplaceAll(Substitute(text, first), Placeholder(key), vars[key])
         == Substitute(text, first[key := vars[key]])
  {
    var second := map[key := vars[key]];
    ReplaceIsSubstitute(Substitute(text, first), key, vars[key]);
    CleanIsSafe(text, vars, first, key);
    assert first + second == first[key := vars[key]];
    TwoRounds(text, first, second);
  }

  lemma CleanIsSafe(text: string, vars: map<string, string>, first: map<string, string>, key: string)
    requires PlainKeys(vars.Keys) && PlainValues(vars) && Clean(text, vars.Keys)
    requires first.Keys <= vars.Keys && (forall k | k in first :: first[k] == vars[k])
    requires key in vars && key !in first
    ensures NoNew(text, first, {key})
  {
    var blank := set k | k in first && first[k] == [];
    forall i: nat | i < |text| && !Matches(text[i..], first.Keys) && Placeholder(key) <= Substitute(text[i..], first)
      ensures Placeholder(key) <= text[i..]
    {
      assert Placeholder(key)[0..] == Placeholder(key);
      SubstituteSpells(text[i..], first, key, 0, blank, vars.Keys - blank - {key});
      assert blank <= vars.Keys - {key};
      assert !Arises(text[i..], key, blank, vars.Keys);
      assert Matches(text[i..], blank + {key});
    }
  }

  lemma {:induction false} CopyAll(text: string, vars: map<string, string>)
    requires vars == map[]
    ensures Substitute(text, vars) == text
  {
    if text == [] {
    } else {
      CopyAll(text[1..], vars);
    }
  }

  /** A character that can stand before a placeholder without harm. */
  predicate Separates(c: char, keys: set<string>) {
    c != '{' && c != '}' && forall key | key in keys :: c !in key
  }

  /** A text is clean if each placeholder starts it or follows a character that
      is no brace and occurs in no key. */
  lemma SeparatedIsClean(text: string, keys: set<string>)
    requires forall p, a | 0 < p <= |text| && a in keys && Placeholder(a) <= text[p..] :: Separates(text[p - 1], keys)
    requires PlainKeys(keys)
    ensures Clean(text, keys)
  {
    forall i: nat, k, blank | i < |text| && k in keys && blank <= keys - {k}
      ensures !Arises(text[i..], k, blank, keys)
    {
      if Arises(text[i..], k, blank, keys) {
        var open := keys - blank - {k};
        assert Placeholder(k)[0..] == Placeholder(k);
        forall c | c in open ensures !(Placeholder(c) <= text[i..]) {
          if Placeholder(c) <= text[i..] {
            NotSpeltInside(text[i..], c, k, 0, blank, open);
            assert false;
          }
        }
        SpeltRaw(text, i, k, 0, blank, open);
        assert false;
      }
    }
  }

  /** Where no placeholder interrupts it, what is spelt is there. */
  lemma {:induction false} SpeltRaw(text: string, i: nat, k: string, j: nat, blank: set<string>, open: set<string>)
    requires i <= |text| && j <= |Placeholder(k)| && PlainKeys({k})
    requires !Matches(text[i..], blank) && !Matches(text[i..], open)
    requires forall p, a | 0 < p <= |text| && a in blank + open && Placeholder(a) <= text[p..] ::
               Separates(text[p - 1], {k})
    requires Spells(text[i..], Placeholder(k)[j..], blank, open)
    ensures Placeholder(k)[j..] <= text[i..]
    decreases |text| - i
  {
    if j == |Placeholder(k)| {
    } else {
      assert text[i] == text[i..][0] == Placeholder(k)[j..][0] == Placeholder(k)[j];
      assert 2 <= j < 2 + |k| ==> Placeholder(k)[j] == k[j - 2] && k[j - 2] in k;
      assert !Separates(text[i], {k});
      forall a | a in blank + open ensures !(Placeholder(a) <= text[i + 1..]) {}
      assert text[i..][1..] == text[i + 1..] && Placeholder(k)[j..][1..] == Placeholder(k)[j + 1..];
      SpeltRaw(text, i + 1, k, j + 1, blank, open);
    }
  }
}
