/** Why the clean texts of Templates are the right ones: behind any other text
    the order of the keys can show. */
module TemplateOrder {
  import opened Templates

  /** `d` for every placeholder of `k` in the text. */
  ghost function Added(text: string, k: string, d: nat): nat
    decreases |text|
  {
    if text == [] then 0
    else if Placeholder(k) <= text then d + Added(text[|Placeholder(k)|..], k, d)
    else Added(text[1..], k, d)
  }

  lemma {:induction false} LengthOfReplace(text: string, k: string, v: string, d: nat)
    requires |v| == |Placeholder(k)| + d
    ensures |ReplaceAll(text, Placeholder(k), v)| == |text| + Added(text, k, d)
    decreases |text|
  {
    if text == [] {
    } else {
      if Placeholder(k) <= text {
        LengthOfReplace(text[|Placeholder(k)|..], k, v, d);
      } else {
        LengthOfReplace(text[1..], k, v, d);
      }
    }
  }

  lemma {:induction false} LengthOfBoth(text: string, a: string, va: string, k: string, vk: string, d: nat)
    requires PlainKeys({a, k}) && a != k && |vk| == |Placeholder(k)| + d
    ensures |Substitute(text, map[a := va, k := vk])| == |Substitute(text, map[a := va])| + Added(text, k, d)
    decreases |text|
  {
    var both, one := map[a := va, k := vk], map[a := va];
    if text == [] {
    } else if Placeholder(a) <= text {
      var rest := text[|Placeholder(a)|..];
      MatchedIs(text, both.Keys, a);
      MatchedIs(text, one.Keys, a);
      LengthOfBoth(rest, a, va, k, vk, d);
      assert text == Placeholder(a)[0..] + rest;
      AddedPastPlaceholder(a, 0, rest, k, d);
    } else if Placeholder(k) <= text {
      var rest := text[|Placeholder(k)|..];
      MatchedIs(text, both.Keys, k);
      LengthOfBoth(rest, a, va, k, vk, d);
      assert text == Placeholder(k)[0..] + rest;
      CopyPlaceholder(k, 0, rest, one);
    } else {
      LengthOfBoth(text[1..], a, va, k, vk, d);
    }
  }

  lemma {:induction false} AddedPastValue(v: string, text: string, k: string, d: nat)
    requires '{' !in v
    ensures Added(v + text, k, d) == Added(text, k, d)
  {
    if v == [] {
      assert v + text == text;
    } else {
      assert (v + text)[0] == v[0] && v[0] in v && Placeholder(k)[0] == '{';
      assert (v + text)[1..] == v[1..] + text;
      AddedPastValue(v[1..], text, k, d);
    }
  }

  lemma NoLaterMatch(a: string, j: nat, text: string, k: string)
    requires PlainKeys({a, k}) && j < |Placeholder(a)| && (a != k || j > 0)
    ensures !(Placeholder(k) <= Placeholder(a)[j..] + text)
  {
    if a != k {
      NoMatchInside(a, j, text, k);
    } else {
      assert (Placeholder(a) + text)[j..] == Placeholder(a)[j..] + text;
      NoOverlap(Placeholder(a) + text, a, k, j);
    }
  }

  lemma DropFirst(s: string, j: nat, text: string)
    requires j < |s|
    ensures s[j..] + text != [] && (s[j..] + text)[1..] == s[j + 1..] + text
  {}

  lemma {:induction false} AddedPastPlaceholder(a: string, j: nat, text: string, k: string, d: nat)
    requires PlainKeys({a, k}) && j <= |Placeholder(a)| && (a != k || j > 0)
    ensures Added(Placeholder(a)[j..] + text, k, d) == Added(text, k, d)
    decreases |Placeholder(a)| - j
  {
    if j == |Placeholder(a)| {
      assert Placeholder(a)[j..] + text == text;
    } else {
      NoLaterMatch(a, j, text, k);
      DropFirst(Placeholder(a), j, text);
      AddedPastPlaceholder(a, j + 1, text, k, d);
    }
  }

  lemma AddedCons(c: char, text: string, k: string, d: nat)
    requires PlainKeys({k})
    ensures Added([c] + text, k, d) >= Added(text, k, d)
  {
    var whole := [c] + text;
    if Placeholder(k) <= whole {
      var rest := whole[|Placeholder(k)|..];
      assert text == whole[1..] == Placeholder(k)[1..] + rest;
      AddedPastPlaceholder(k, 1, rest, k, d);
    } else {
      assert whole[1..] == text;
    }
  }

  /** What replacing `a` adds to the placeholders of `k`, at `d` each. */
  ghost function Gain(text: string, a: string, va: string, k: string, d: nat): int {
    Added(Substitute(text, map[a := va]), k, d) - Added(text, k, d)
  }

  lemma StepPastA(text: string, a: string, va: string, k: string, d: nat)
    requires PlainKeys({a, k}) && a != k && '{' !in va && Placeholder(a) <= text
    ensures Gain(text, a, va, k, d) == Gain(text[|Placeholder(a)|..], a, va, k, d)
  {
    var rest := text[|Placeholder(a)|..];
    MatchedIs(text, map[a := va].Keys, a);
    assert text == Placeholder(a)[0..] + rest;
    AddedPastPlaceholder(a, 0, rest, k, d);
    AddedPastValue(va, Substitute(rest, map[a := va]), k, d);
  }

  lemma StepPastK(text: string, a: string, va: string, k: string, d: nat)
    requires PlainKeys({a, k}) && a != k && Placeholder(k) <= text
    ensures Gain(text, a, va, k, d) == Gain(text[|Placeholder(k)|..], a, va, k, d)
  {
    var rest := text[|Placeholder(k)|..];
    assert text == Placeholder(k)[0..] + rest;
    CopyPlaceholder(k, 0, rest, map[a := va]);
    var once := Placeholder(k) + Substitute(rest, map[a := va]);
    assert once[|Placeholder(k)|..] == Substitute(rest, map[a := va]);
  }

  lemma StepPastChar(text: string, a: string, va: string, k: string, d: nat)
    requires PlainKeys({a, k}) && text != [] && !(Placeholder(a) <= text) && !(Placeholder(k) <= text)
    ensures Gain(text, a, va, k, d) >= Gain(text[1..], a, va, k, d)
  {
    AddedCons(text[0], Substitute(text[1..], map[a := va]), k, d);
  }

  /** One step of the scan: no gain is lost, and the step stays short of a
      later pair of opening braces at `i`. */
  lemma Step(text: string, a: string, va: string, k: string, d: nat, i: nat) returns (n: nat)
    requires PlainKeys({a, k}) && a != k && '{' !in va && text != []
    ensures 1 <= n <= |text| && Gain(text, a, va, k, d) >= Gain(text[n..], a, va, k, d)
    ensures 0 < i < |text| - 1 && text[i] == '{' && text[i + 1] == '{' ==> n <= i
  {
    var later := 0 < i < |text| - 1 && text[i] == '{' && text[i + 1] == '{';
    if Placeholder(a) <= text {
      n := |Placeholder(a)|;
      StepPastA(text, a, va, k, d);
      if later {
        OpeningIsPast(text, a, i);
      }
    } else if Placeholder(k) <= text {
      n := |Placeholder(k)|;
      StepPastK(text, a, va, k, d);
      if later {
        OpeningIsPast(text, k, i);
      }
    } else {
      n := 1;
      StepPastChar(text, a, va, k, d);
    }
  }

  /** Replacing `a` loses no placeholder of `k`. */
  lemma {:induction false} NoLoss(text: string, a: string, va: string, k: string, d: nat)
    requires PlainKeys({a, k}) && a != k && '{' !in va
    ensures Gain(text, a, va, k, d) >= 0
    decreases |text|
  {
    if text == [] {
    } else {
      var n := Step(text, a, va, k, d, 0);
      NoLoss(text[n..], a, va, k, d);
    }
  }

  lemma OpeningIsPast(text: string, a: string, i: nat)
    requires PlainKeys({a}) && Placeholder(a) <= text && 0 < i < |text| - 1
    requires text[i] == '{' && text[i + 1] == '{'
    ensures i >= |Placeholder(a)|
  {
    if i < |Placeholder(a)| {
      OneOpening(a, i);
      assert false;
    }
  }

  // ----- A completed placeholder -----

  /** At `i` stands no placeholder for `a` or `k`; giving `a` its value completes
      one for `k` there. */
  ghost predicate Completed(text: string, i: nat, a: string, va: string, k: string) {
    && i < |text| && !(Placeholder(a) <= text[i..]) && !(Placeholder(k) <= text[i..])
    && Placeholder(k) <= Substitute(text[i..], map[a := va])
  }

  lemma OpensAlready(text: string, a: string, va: string)
    requires PlainKeys({a}) && '{' !in va && Substitute(text, map[a := va]) != []
    requires Substitute(text, map[a := va])[0] == '{' && (va != [] || !(Placeholder(a) <= text))
    ensures text != [] && text[0] == '{'
  {
    if Placeholder(a) <= text {
      MatchedIs(text, map[a := va].Keys, a);
      assert text[0] == Placeholder(a)[0];
    }
  }

  /** Both its opening braces are there already, or the second begins what
      makes room for it. */
  lemma CompletedOpens(text: string, i: nat, a: string, va: string, k: string)
    requires PlainKeys({a, k}) && '{' !in va && Completed(text, i, a, va, k)
    ensures i < |text| - 1 && text[i] == '{' && text[i + 1] == '{'
  {
    var here, one := text[i..], map[a := va];
    var rest := here[1..];
    assert Substitute(here, one) == [here[0]] + Substitute(rest, one);
    assert Placeholder(k)[0] == '{' && Placeholder(k)[1] == '{';
    assert here[0] == text[i] == '{' && Substitute(rest, one)[0] == '{';
    if Placeholder(a) <= rest {
      assert text[i + 1] == rest[0] == Placeholder(a)[0];
    } else {
      OpensAlready(rest, a, va);
      assert text[i + 1] == rest[0];
    }
  }

  lemma GrowsHere(text: string, a: string, va: string, k: string, d: nat)
    requires PlainKeys({a, k}) && a != k && '{' !in va && Completed(text, 0, a, va, k)
    ensures Gain(text, a, va, k, d) >= d
  {
    assert text[0..] == text;
    var once := Substitute(text, map[a := va]);
    var rest := once[|Placeholder(k)|..];
    assert once[1..] == Substitute(text[1..], map[a := va]) == Placeholder(k)[1..] + rest;
    AddedPastPlaceholder(k, 1, rest, k, d);
    NoLoss(text[1..], a, va, k, d);
  }

  /** Completing adds to the placeholders of `k`. */
  lemma {:induction false} Growth(text: string, i: nat, a: string, va: string, k: string, d: nat)
    requires PlainKeys({a, k}) && a != k && '{' !in va && Completed(text, i, a, va, k)
    ensures Gain(text, a, va, k, d) >= d
    decreases |text|
  {
    if i == 0 {
      GrowsHere(text, a, va, k, d);
    } else {
      CompletedOpens(text, i, a, va, k);
      var n := Step(text, a, va, k, d, i);
      assert text[n..][i - n..] == text[i..];
      Growth(text[n..], i - n, a, va, k, d);
    }
  }

  // ----- Two orders that tell -----

  function Xs(n: nat): (s: string)
    ensures |s| == n && '{' !in s && '}' !in s
  {
    if n == 0 then [] else ['x'] + Xs(n - 1)
  }

  lemma InOrderOfTwo(text: string, one: string, two: string, vars: map<string, string>)
    requires one in vars && two in vars
    ensures ReplaceInOrder(text, [one, two], vars)
         == ReplaceAll(ReplaceAll(text, Placeholder(one), vars[one]), Placeholder(two), vars[two])
  {
    assert [one, two][..1] == [one] && [one][..0] == [];
    assert ReplaceInOrder(text, [one], vars) == ReplaceAll(ReplaceInOrder(text, [], vars), Placeholder(one), vars[one]);
  }

  lemma EndsInside(end: string, v: string, text: string)
    requires 0 < |end| <= |v| && v <= text && end <= text && end[|end| - 1] == '}'
    ensures '}' in v
  {
    assert v[|end| - 1] == text[|end| - 1] == '}';
  }

  /** A value longer than any placeholder of `a`, without braces, completes none. */
  lemma {:induction false} LongValueCompletesNone(text: string, k: string, vk: string, a: string, j: nat)
    requires PlainKeys({a, k}) && '}' !in vk && |vk| >= |Placeholder(a)| && j <= |Placeholder(a)|
    requires !(Placeholder(k) <= text) && Placeholder(a)[j..] <= Substitute(text, map[k := vk])
    ensures Placeholder(a)[j..] <= text
  {
    if j == |Placeholder(a)| {
    } else {
      var rest := text[1..];
      var once := Substitute(rest, map[k := vk]);
      assert Substitute(text, map[k := vk]) == [text[0]] + once;
      assert Placeholder(a)[j..] == [Placeholder(a)[j]] + Placeholder(a)[j + 1..];
      if j + 1 < |Placeholder(a)| && Placeholder(k) <= rest {
        MatchedIs(rest, map[k := vk].Keys, k);
        EndsInside(Placeholder(a)[j + 1..], vk, once);
        assert false;
      } else if j + 1 < |Placeholder(a)| {
        LongValueCompletesNone(rest, k, vk, a, j + 1);
      }
    }
  }

  lemma LongValueIsSafe(text: string, a: string, k: string, vk: string)
    requires PlainKeys({a, k}) && '}' !in vk && |vk| >= |Placeholder(a)|
    ensures NoNew(text, map[k := vk], {a})
  {
    assert Placeholder(a)[0..] == Placeholder(a);
    forall i: nat | i < |text| && !Matches(text[i..], {k}) && Placeholder(a) <= Substitute(text[i..], map[k := vk])
      ensures Placeholder(a) <= text[i..]
    {
      assert !(Placeholder(k) <= text[i..]);
      LongValueCompletesNone(text[i..], k, vk, a, 0);
    }
    assert map[k := vk].Keys == {k};
  }

  /** k first: its value is too long to complete anything. */
  lemma LongValueIsHarmless(text: string, a: string, va: string, k: string, vk: string)
    requires PlainKeys({a, k}) && a != k && '{' !in vk && '}' !in vk && |vk| >= |Placeholder(a)|
    ensures ReplaceAll(ReplaceAll(text, Placeholder(k), vk), Placeholder(a), va)
         == Substitute(text, map[a := va, k := vk])
  {
    ReplaceIsSubstitute(text, k, vk);
    ReplaceIsSubstitute(Substitute(text, map[k := vk]), a, va);
    LongValueIsSafe(text, a, k, vk);
    TwoRounds(text, map[k := vk], map[a := va]);
    assert map[k := vk] + map[a := va] == map[a := va, k := vk];
  }

  /** Two orders give texts of different lengths. */
  ghost predicate Tell(
    text: string, keys: set<string>, vars: map<string, string>, one: seq<string>, other: seq<string>)
  {
    && vars.Keys == keys && PlainValues(vars) && IsOrder(one, keys) && IsOrder(other, keys)
    && |ReplaceInOrder(text, one, vars)| != |ReplaceInOrder(text, other, vars)|
  }

  ghost predicate Told(text: string, keys: set<string>) {
    exists vars, one, other :: Tell(text, keys, vars, one, other)
  }

  lemma PairLengths(text: string, i: nat, a: string, va: string, k: string, vk: string)
    requires PlainKeys({a, k}) && a != k && '{' !in va && Completed(text, i, a, va, k)
    requires vk == Xs(|Placeholder(k)| + |Placeholder(a)|)
    ensures |ReplaceAll(ReplaceAll(text, Placeholder(a), va), Placeholder(k), vk)|
          > |ReplaceAll(ReplaceAll(text, Placeholder(k), vk), Placeholder(a), va)|
  {
    var d := |Placeholder(a)|;
    ReplaceIsSubstitute(text, a, va);
    LengthOfReplace(Substitute(text, map[a := va]), k, vk, d);
    LengthOfBoth(text, a, va, k, vk, d);
    Growth(text, i, a, va, k, d);
    LongValueIsHarmless(text, a, va, k, vk);
  }

  /** Completed: the order of the two keys shows. */
  lemma PairTells(text: string, i: nat, a: string, va: string, k: string)
    requires PlainKeys({a, k}) && a != k && '{' !in va && Completed(text, i, a, va, k)
    ensures Told(text, {a, k})
  {
    var vk := Xs(|Placeholder(k)| + |Placeholder(a)|);
    var vars := map[a := va, k := vk];
    PairLengths(text, i, a, va, k, vk);
    InOrderOfTwo(text, k, a, vars);
    InOrderOfTwo(text, a, k, vars);
    TellIs(text, {a, k}, vars, [a, k], [k, a]);
  }

  lemma {:induction false} SameValues(
    text: string, keys: seq<string>, vars: map<string, string>, vars': map<string, string>)
    requires forall key | key in keys :: key in vars && key in vars' && vars[key] == vars'[key]
    ensures ReplaceInOrder(text, keys, vars) == ReplaceInOrder(text, keys, vars')
  {
    if keys == [] {
    } else {
      SameValues(text, keys[..|keys| - 1], vars, vars');
    }
  }

  lemma {:induction false} SameLength(text: string, k: string, v: string)
    requires |v| == |Placeholder(k)|
    ensures |ReplaceAll(text, Placeholder(k), v)| == |text|
    decreases |text|
  {
    if text == [] {
    } else {
      SameLength(if Placeholder(k) <= text then text[|Placeholder(k)|..] else text[1..], k, v);
    }
  }

  lemma MoreValues(vars: map<string, string>, o: string, v: string)
    requires PlainValues(vars) && '{' !in v
    ensures PlainValues(vars[o := v]) && vars[o := v].Keys == vars.Keys + {o}
  {}

  lemma OrderSnoc(keys: seq<string>, all: set<string>, o: string)
    requires IsOrder(keys, all) && o !in all
    ensures IsOrder(keys + [o], all + {o})
  {}

  lemma OrderCons(o: string, keys: seq<string>, all: set<string>)
    requires IsOrder(keys, all) && o !in all
    ensures IsOrder([o] + keys, all + {o})
  {}

  lemma TellIs(text: string, keys: set<string>, vars: map<string, string>, one: seq<string>, other: seq<string>)
    requires vars.Keys == keys && PlainValues(vars) && IsOrder(one, keys) && IsOrder(other, keys)
    requires |ReplaceInOrder(text, one, vars)| != |ReplaceInOrder(text, other, vars)|
    ensures Told(text, keys)
  {
    assert Tell(text, keys, vars, one, other);
  }

  lemma OneKeyLater(text: string, keys: seq<string>, vars: map<string, string>, o: string)
    requires (forall key | key in keys :: key in vars) && o !in keys
    ensures var v := Xs(|Placeholder(o)|);
            |ReplaceInOrder(text, keys + [o], vars[o := v])| == |ReplaceInOrder(text, keys, vars)|
  {
    var v := Xs(|Placeholder(o)|);
    assert (keys + [o])[..|keys|] == keys;
    SameValues(text, keys, vars, vars[o := v]);
    SameLength(ReplaceInOrder(text, keys, vars), o, v);
  }

  /** A further key, with a value as long as its placeholder, hides nothing. */
  lemma KeyAfter(text: string, keys: set<string>, o: string)
    requires Told(text, keys) && o !in keys
    ensures Told(text, keys + {o})
  {
    var vars, one, other :| Tell(text, keys, vars, one, other);
    var v := Xs(|Placeholder(o)|);
    OneKeyLater(text, one, vars, o);
    OneKeyLater(text, other, vars, o);
    MoreValues(vars, o, v);
    OrderSnoc(one, keys, o);
    OrderSnoc(other, keys, o);
    TellIs(text, keys + {o}, vars[o := v], one + [o], other + [o]);
  }

  lemma {:induction false} KeysAfter(text: string, some: set<string>, keys: set<string>)
    requires Told(text, some) && some <= keys
    ensures Told(text, keys)
    decreases keys - some
  {
    if some == keys {
    } else {
      var o :| o in keys && o !in some;
      KeyAfter(text, some, o);
      KeysAfter(text, some + {o}, keys);
    }
  }

  lemma {:induction false} OneKeySooner(text: string, a: string, keys: seq<string>, vars: map<string, string>)
    requires (forall key | key in keys :: key in vars) && a !in keys
    ensures ReplaceInOrder(text, [a] + keys, vars[a := []])
         == ReplaceInOrder(ReplaceAll(text, Placeholder(a), []), keys, vars)
  {
    var vars' := vars[a := []];
    if keys == [] {
      assert [a] + keys == [a] && [a][..0] == [];
      assert ReplaceInOrder(text, [], vars') == text;
    } else {
      var n := |keys| - 1;
      OneKeySooner(text, a, keys[..n], vars);
      assert ([a] + keys)[..n + 1] == [a] + keys[..n];
      assert ([a] + keys)[n + 1] == keys[n];
    }
  }

  lemma OneMoreBefore(text: string, a: string, rest: set<string>)
    requires Told(ReplaceAll(text, Placeholder(a), []), rest) && a !in rest
    ensures Told(text, rest + {a})
  {
    var vars, one, other :| Tell(ReplaceAll(text, Placeholder(a), []), rest, vars, one, other);
    OneKeySooner(text, a, one, vars);
    OneKeySooner(text, a, other, vars);
    MoreValues(vars, a, []);
    OrderCons(a, one, rest);
    OrderCons(a, other, rest);
    TellIs(text, rest + {a}, vars[a := []], [a] + one, [a] + other);
  }

  /** What shows after a key is blanked, shows before. */
  lemma KeyBefore(text: string, a: string, keys: set<string>)
    requires Told(ReplaceAll(text, Placeholder(a), []), keys - {a}) && a in keys
    ensures Told(text, keys)
  {
    OneMoreBefore(text, a, keys - {a});
    PutBack(keys, a);
  }

  lemma PutBack(keys: set<string>, a: string)
    requires a in keys
    ensures keys - {a} + {a} == keys
  {}

  // ----- Blanking keys one by one -----

  /** What the text spells, it still spells with one of the blanks taken out. */
  lemma {:induction false} BlankKeepsSpelling(
    text: string, a: string, k: string, j: nat, blank: set<string>, open: set<string>)
    requires PlainKeys(blank + open + {k}) && a in blank && k !in blank && blank !! open
    requires j <= |Placeholder(k)| && Spells(text, Placeholder(k)[j..], blank, open)
    ensures Spells(Substitute(text, map[a := ""]), Placeholder(k)[j..], blank - {a}, open)
    decreases |text|
  {
    var want := Placeholder(k)[j..];
    if want == [] {
      SpellsNothing(Substitute(text, map[a := ""]), blank - {a}, open);
    } else if Matches(text, blank) {
      var b := Matched(text, blank);
      BlankKeepsSpelling(text[|Placeholder(b)|..], a, k, j, blank, open);
      PastBlank(text, a, b, want, blank, open);
    } else if '{' !in want && Matches(text, open) {
      AtOpen(text, a, want, blank, open);
    } else {
      assert want[0] == Placeholder(k)[j] && want[1..] == Placeholder(k)[j + 1..];
      BlankKeepsSpelling(text[1..], a, k, j + 1, blank, open);
      PastChar(text, a, k, j, blank, open);
    }
  }

  lemma PastBlank(text: string, a: string, b: string, want: string, blank: set<string>, open: set<string>)
    requires PlainKeys(blank) && a in blank && b in blank && Placeholder(b) <= text
    requires Spells(Substitute(text[|Placeholder(b)|..], map[a := ""]), want, blank - {a}, open)
    ensures Spells(Substitute(text, map[a := ""]), want, blank - {a}, open)
  {
    var one := map[a := ""];
    if b == a {
      MatchedIs(text, one.Keys, a);
      assert Substitute(text, one) == Substitute(text[|Placeholder(b)|..], one);
    } else {
      CopyAtHead(text, b, one);
      MatchedIs(Substitute(text, one), blank - {a}, b);
    }
  }

  lemma AtOpen(text: string, a: string, want: string, blank: set<string>, open: set<string>)
    requires PlainKeys(blank + open) && a in blank && blank !! open && '{' !in want && Matches(text, open)
    ensures Spells(Substitute(text, map[a := ""]), want, blank - {a}, open)
  {
    var c := Matched(text, open);
    CopyAtHead(text, c, map[a := ""]);
    NothingElse(Substitute(text, map[a := ""]), c, blank - {a});
  }

  lemma PastChar(text: string, a: string, k: string, j: nat, blank: set<string>, open: set<string>)
    requires PlainKeys(blank + open + {k}) && a in blank && k !in blank && j < |Placeholder(k)| && text != []
    requires !(Placeholder(a) <= text) && text[0] == Placeholder(k)[j]
    requires Spells(Substitute(text[1..], map[a := ""]), Placeholder(k)[j + 1..], blank - {a}, open)
    ensures Spells(Substitute(text, map[a := ""]), Placeholder(k)[j..], blank - {a}, open)
  {
    var once := Substitute(text, map[a := ""]);
    assert once == [text[0]] + Substitute(text[1..], map[a := ""]);
    assert once[1..] == Substitute(text[1..], map[a := ""]);
    forall b | b in blank - {a} ensures !(Placeholder(b) <= once) {
      NoneStartsHere(once, b, k, j, blank - {a}, open);
    }
    assert Placeholder(k)[j..][1..] == Placeholder(k)[j + 1..];
  }

  lemma NothingElse(text: string, c: string, keys: set<string>)
    requires PlainKeys(keys + {c}) && c !in keys && Placeholder(c) <= text
    ensures !Matches(text, keys)
  {
    forall key | key in keys ensures !(Placeholder(key) <= text) {
      MatchUnique(text, c, key);
    }
  }

  /** Where the spelling takes a character, no other placeholder starts. */
  lemma NoneStartsHere(text: string, c: string, k: string, j: nat, blank: set<string>, open: set<string>)
    requires PlainKeys(blank + open + {c, k}) && c != k && j < |Placeholder(k)| && text != []
    requires text[0] == Placeholder(k)[j] && Spells(text[1..], Placeholder(k)[j + 1..], blank, open)
    ensures !(Placeholder(c) <= text)
  {
    if Placeholder(c) <= text {
      assert Placeholder(k)[j] == Placeholder(c)[0] == '{';
      if j > 1 {
        OneOpening(k, j);
        assert false;
      }
      NotSpeltInside(text, c, k, j, blank, open);
      assert false;
    }
  }

  /** With nothing left to blank, one value brings what is still missing. */
  lemma {:induction false} OpenCompletes(text: string, k: string, j: nat, open: set<string>)
    returns (c: string, v: string)
    requires PlainKeys(open + {k}) && k !in open
    requires j <= |Placeholder(k)| && Spells(text, Placeholder(k)[j..], {}, open) && !(Placeholder(k)[j..] <= text)
    ensures c in open && '{' !in v && Placeholder(k)[j..] <= Substitute(text, map[c := v])
    decreases |text|
  {
    var want := Placeholder(k)[j..];
    if '{' !in want && Matches(text, open) {
      c, v := Matched(text, open), want;
      MatchedIs(text, map[c := v].Keys, c);
    } else {
      assert want[1..] == Placeholder(k)[j + 1..];
      c, v := OpenCompletes(text[1..], k, j + 1, open);
      NoneStartsHere(text, c, k, j, {}, open);
      assert Substitute(text, map[c := v]) == [text[0]] + Substitute(text[1..], map[c := v]);
    }
  }

  lemma ArisesOpens(text: string, k: string, blank: set<string>, keys: set<string>)
    requires PlainKeys(keys) && k in keys && blank <= keys - {k} && Arises(text, k, blank, keys)
    ensures |text| >= 2 && text[0] == '{' == text[1]
    ensures Spells(text[1..], Placeholder(k)[1..], blank, keys - blank - {k})
  {
    assert Placeholder(k)[0] == '{' && Placeholder(k)[1] == '{' == Placeholder(k)[1..][0];
    assert !Matches(text, blank) by {
      assert !Matches(text, blank + {k});
    }
    var rest := text[1..];
    assert '{' in Placeholder(k) && '{' in Placeholder(k)[1..];
    assert Spells(rest, Placeholder(k)[1..], blank, keys - blank - {k});
    if Matches(rest, blank) {
      assert rest[0] == Placeholder(Matched(rest, blank))[0];
    }
  }

  lemma BlankDropped(text: string, a: string)
    requires Placeholder(a) <= text
    ensures Substitute(text, map[a := ""]) == Substitute(text[|Placeholder(a)|..], map[a := ""])
  {
    assert Matched(text, map[a := ""].Keys) == a;
  }

  lemma SuffixOfSuffix(text: string, m: nat, i: nat)
    requires m <= i <= |text|
    ensures text[m..][i - m..] == text[i..]
  {}

  /** Where the text from `i` on goes when `a` is blanked. */
  lemma {:induction false} Moved(text: string, i: nat, a: string) returns (n: nat)
    requires PlainKeys({a}) && i + 1 < |text| && text[i] == '{' == text[i + 1]
    ensures n <= |Substitute(text, map[a := ""])|
    ensures Substitute(text, map[a := ""])[n..] == Substitute(text[i..], map[a := ""])
    decreases |text|
  {
    if i == 0 {
      assert text[0..] == text;
      n := 0;
    } else if Placeholder(a) <= text {
      var m := |Placeholder(a)|;
      OpeningIsPast(text, a, i);
      SuffixOfSuffix(text, m, i);
      BlankDropped(text, a);
      n := Moved(text[m..], i - m, a);
    } else {
      SuffixOfSuffix(text, 1, i);
      n := Moved(text[1..], i - 1, a);
      SuffixOfSuffix(Substitute(text, map[a := ""]), 1, n + 1);
      n := n + 1;
    }
  }

  /** Blanking one key completes a placeholder for another. */
  lemma BlankTells(text: string, i: nat, k: string, a: string, blank: set<string>, keys: set<string>)
    requires PlainKeys(keys) && k in keys && a in blank && blank <= keys - {k}
    requires i < |text| && !Matches(text[i..], blank + {k})
    requires Matches(Substitute(text[i..], map[a := ""]), blank - {a} + {k})
    ensures Told(text, keys)
  {
    var b := Matched(Substitute(text[i..], map[a := ""]), blank - {a} + {k});
    PairTells(text, i, a, "", b);
    KeysAfter(text, {a, b}, keys);
  }

  /** With nothing to blank, the value of one key completes another's. */
  lemma OpenTells(text: string, i: nat, k: string, keys: set<string>)
    requires PlainKeys(keys) && k in keys && i < |text| && Arises(text[i..], k, {}, keys)
    ensures Told(text, keys)
  {
    var here := text[i..];
    ArisesOpens(here, k, {}, keys);
    assert Placeholder(k)[0..] == Placeholder(k) && keys - {} - {k} == keys - {k};
    assert !(Placeholder(k) <= here);
    var c, v := OpenCompletes(here, k, 0, keys - {k});
    NoneStartsHere(here, c, k, 0, {}, keys - {k});
    PairTells(text, i, c, v, k);
    KeysAfter(text, {c, k}, keys);
  }

  /** Blanked first, a key either completes another's placeholder or leaves one
      blank fewer for `k` to arise. */
  lemma BlankOne(text: string, k: string, a: string, blank: set<string>, keys: set<string>)
    requires PlainKeys(keys) && k in keys && a in blank && blank <= keys - {k} && Arises(text, k, blank, keys)
    ensures var once := Substitute(text, map[a := ""]);
            once != [] && (Matches(once, blank - {a} + {k}) || Arises(once, k, blank - {a}, keys - {a}))
  {
    var once, open := Substitute(text, map[a := ""]), keys - blank - {k};
    assert Placeholder(k)[0..] == Placeholder(k);
    BlankKeepsSpelling(text, a, k, 0, blank, open);
    assert (keys - {a}) - (blank - {a}) - {k} == open;
    assert '{' in Placeholder(k);
    assert Spells(once, Placeholder(k), blank - {a}, open);
  }

  lemma ArisesAfter(text: string, i: nat, k: string, a: string, blank: set<string>, keys: set<string>) returns (n: nat)
    requires PlainKeys(keys) && k in keys && a in blank && blank <= keys - {k}
    requires i < |text| && Arises(text[i..], k, blank, keys)
    requires !Matches(Substitute(text[i..], map[a := ""]), blank - {a} + {k})
    ensures var once := ReplaceAll(text, Placeholder(a), "");
            n < |once| && Arises(once[n..], k, blank - {a}, keys - {a})
  {
    ArisesOpens(text[i..], k, blank, keys);
    BlankOne(text[i..], k, a, blank, keys);
    ReplaceIsSubstitute(text, a, "");
    n := Moved(text, i, a);
  }

  /** A placeholder that can arise makes two orders tell: blank keys go first,
      one by one, until one more value completes it. */
  lemma {:induction false} ArisingTells(text: string, i: nat, k: string, blank: set<string>, keys: set<string>)
    requires PlainKeys(keys) && k in keys && blank <= keys - {k} && i < |text| && Arises(text[i..], k, blank, keys)
    ensures Told(text, keys)
    decreases blank
  {
    if blank == {} {
      OpenTells(text, i, k, keys);
    } else {
      var a :| a in blank;
      if Matches(Substitute(text[i..], map[a := ""]), blank - {a} + {k}) {
        BlankTells(text, i, k, a, blank, keys);
      } else {
        var n := ArisesAfter(text, i, k, a, blank, keys);
        ArisingTells(ReplaceAll(text, Placeholder(a), ""), n, k, blank - {a}, keys - {a});
        KeyBefore(text, a, keys);
      }
    }
  }

  /** Whatever the values (opening braces aside), all orders of the keys give the
      same file. */
  ghost predicate Deterministic(text: string, keys: set<string>) {
    forall vars: map<string, string>, one, other |
      vars.Keys == keys && PlainValues(vars) && IsOrder(one, keys) && IsOrder(other, keys) ::
      SameResult(text, vars, one, other)
  }

  ghost predicate SameResult(text: string, vars: map<string, string>, one: seq<string>, other: seq<string>)
    requires IsOrder(one, vars.Keys) && IsOrder(other, vars.Keys)
  {
    ReplaceInOrder(text, one, vars) == ReplaceInOrder(text, other, vars)
  }

  /** Generated files do not depend on map order exactly when the template is
      clean. */
  lemma DeterministicIffClean(text: string, keys: set<string>)
    requires PlainKeys(keys)
    ensures Deterministic(text, keys) <==> Clean(text, keys)
  {
    if Clean(text, keys) {
      forall vars: map<string, string>, one, other |
        vars.Keys == keys && PlainValues(vars) && IsOrder(one, keys) && IsOrder(other, keys)
        ensures SameResult(text, vars, one, other)
      {
        OrderDoesNotMatter(text, one, vars);
        OrderDoesNotMatter(text, other, vars);
        assert Restrict(vars, one) == vars == Restrict(vars, other);
      }
    } else {
      var i: nat, k, blank :| i < |text| && k in keys && blank <= keys - {k} && Arises(text[i..], k, blank, keys);
      ArisingTells(text, i, k, blank, keys);
      var vars, one, other :| Tell(text, keys, vars, one, other);
      assert !SameResult(text, vars, one, other);
    }
  }

  const GAP := "{{{A}}{B}}"

  /** One extra brace is enough, where an empty value closes the gap. */
  lemma EmptyValueShows()
    ensures !Deterministic(GAP, {"A", "B"})
  {
    GapArises();
    assert GAP[0..] == GAP && {"A"} <= {"A", "B"} - {"B"};
    DeterministicIffClean(GAP, {"A", "B"});
  }

  lemma NoneAtGap(key: string)
    requires key == "A" || key == "B"
    ensures !(Placeholder(key) <= GAP)
  {
    assert Placeholder(key)[2] == key[0] && GAP[2] == '{';
  }

  lemma GapArises()
    ensures Arises(GAP, "B", {"A"}, {"A", "B"})
  {
    NoneAtGap("A");
    NoneAtGap("B");
    SpellsFromGap();
    assert {"A", "B"} - {"A"} - {"B"} == {} && Placeholder("B") == "{{B}}";
  }

  lemma SpellsFromGap()
    ensures Spells(GAP, "{{B}}", {"A"}, {})
  {
    NoneAtGap("A");
    SpellsAfterGap();
    assert "{{B}}"[1..] == "{B}}" && GAP[1..] == "{{A}}{B}}";
  }

  lemma SpellsAfterGap()
    ensures Spells("{{A}}{B}}", "{B}}", {"A"}, {})
  {
    var text := "{{A}}{B}}";
    assert Placeholder("A") == "{{A}}" && text[5..] == "{B}}";
    assert Placeholder("A") <= text && Matched(text, {"A"}) == "A";
    SpellsItself("{B}}", "A");
  }

  lemma {:induction false} SpellsItself(text: string, a: string)
    requires forall i | 0 <= i < |text| :: !(Placeholder(a) <= text[i..])
    ensures Spells(text, text, {a}, {})
  {
    if text == [] {
    } else {
      assert text[0..] == text;
      forall i | 0 <= i < |text[1..]| ensures !(Placeholder(a) <= text[1..][i..]) {
        assert text[1..][i..] == text[i + 1..];
      }
      SpellsItself(text[1..], a);
    }
  }
}
