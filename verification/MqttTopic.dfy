/**
  MQTT topic-filter matching (include/apr/mqtt_topic.hpp).

  The code walks two character indices.  Section 4.7 of MQTT 3.1.1 speaks about
  levels separated by '/'.  `LevelMatch` is that level-wise meaning, and
  `MatchesIsLevelwise` says exactly how far the character walk agrees with it.
 */
module MqttTopic {

  // ---------- the character walk ----------

  /** What is left of `s` from its first '/' on. */
  function SkipLevel(s: string): string {
    if s == "" || s[0] == '/' then s else SkipLevel(s[1..])
  }

  function DropSlash(s: string): string {
    if s != "" && s[0] == '/' then s[1..] else s
  }

  lemma {:induction false} SkipLevelLength(s: string)
    ensures |SkipLevel(s)| <= |s|
    ensures s != "" && s[0] != '/' ==> |SkipLevel(s)| < |s|
  {
    if s != "" && s[0] != '/' { SkipLevelLength(s[1..]); }
  }

  /** The walk over what remains of the pattern and of the topic. */
  function Scan(p: string, t: string): bool
    decreases |p|
  {
    if p == "" || t == "" then
      (p == "" && t == "") || p == "#"
    else if p[0] == '#' then
      true
    else if p[0] == '+' then
      SkipLevelLength(p);
      Scan(DropSlash(SkipLevel(p)), DropSlash(SkipLevel(t)))
    else
      p[0] == t[0] && Scan(p[1..], t[1..])
  }

  /** The value the two-index loop computes. */
  function MatchSpec(pattern: string, topic: string): bool {
    pattern == "#" || pattern == topic || Scan(pattern, topic)
  }

  method SkipToSlash(s: string, start: nat) returns (i: nat)
    requires start <= |s|
    ensures start <= i <= |s|
    ensures s[i..] == SkipLevel(s[start..])
  {
    i := start;
    while i < |s| && s[i] != '/'
      invariant start <= i <= |s|
      invariant SkipLevel(s[i..]) == SkipLevel(s[start..])
    {
      assert s[i..][1..] == s[i + 1..];
      i := i + 1;
    }
  }

  method Matches(pattern: string, topic: string) returns (r: bool)
    ensures r == MatchSpec(pattern, topic)
  {
    if pattern == "#" { return true; }
    if pattern == topic { return true; }

    var pIdx, tIdx := 0, 0;
    while pIdx < |pattern| && tIdx < |topic|
      invariant pIdx <= |pattern| && tIdx <= |topic|
      invariant Scan(pattern[pIdx..], topic[tIdx..]) == Scan(pattern, topic)
      decreases |pattern| - pIdx
    {
      ghost var p, t := pattern[pIdx..], topic[tIdx..];
      if pattern[pIdx] == '#' {
        return true;
      }
      if pattern[pIdx] == '+' {
        SkipLevelLength(p);
        pIdx := SkipToSlash(pattern, pIdx);
        tIdx := SkipToSlash(topic, tIdx);
        if pIdx < |pattern| && pattern[pIdx] == '/' { pIdx := pIdx + 1; }
        if tIdx < |topic| && topic[tIdx] == '/' { tIdx := tIdx + 1; }
        assert pattern[pIdx..] == DropSlash(SkipLevel(p));
        assert topic[tIdx..] == DropSlash(SkipLevel(t));
        continue;
      }
      if pattern[pIdx] != topic[tIdx] {
        return false;
      }
      assert p[1..] == pattern[pIdx + 1..] && t[1..] == topic[tIdx + 1..];
      pIdx := pIdx + 1;
      tIdx := tIdx + 1;
    }

    if pIdx == |pattern| && tIdx == |topic| { return true; }
    if pIdx < |pattern| && pattern[pIdx] == '#' && pIdx == |pattern| - 1 {
      assert pattern[pIdx..] == "#";
      return true;
    }
    return false;
  }

  // ---------- the level-wise meaning ----------

  function FirstLevel(s: string): string {
    if s == "" || s[0] == '/' then "" else [s[0]] + FirstLevel(s[1..])
  }

  lemma {:induction false} FirstLevelSplits(s: string)
    ensures s == FirstLevel(s) + SkipLevel(s)
    ensures '/' !in FirstLevel(s)
    ensures SkipLevel(s) == "" || SkipLevel(s)[0] == '/'
  {
    if s != "" && s[0] != '/' {
      FirstLevelSplits(s[1..]);
      assert s == [s[0]] + s[1..];
      assert [s[0]] + FirstLevel(s[1..]) + SkipLevel(s[1..]) == [s[0]] + (FirstLevel(s[1..]) + SkipLevel(s[1..]));
    }
  }

  /** The levels of a name: split at every '/', keeping empty levels. */
  function Levels(s: string): (levels: seq<string>)
    ensures |levels| > 0
    decreases |s|
  {
    var rest := SkipLevel(s);
    SkipLevelLength(s);
    if rest == "" then [FirstLevel(s)] else [FirstLevel(s)] + Levels(rest[1..])
  }

  function Join(levels: seq<string>): string
    requires |levels| > 0
  {
    if |levels| == 1 then levels[0] else levels[0] + "/" + Join(levels[1..])
  }

  lemma {:induction false} JoinLevels(s: string)
    ensures Join(Levels(s)) == s
    decreases |s|
  {
    FirstLevelSplits(s);
    SkipLevelLength(s);
    hide FirstLevel, SkipLevel;
    var rest := SkipLevel(s);
    if rest != "" {
      JoinLevels(rest[1..]);
      assert rest == "/" + rest[1..];
      JoinOne(FirstLevel(s), Levels(rest[1..]));
      assert FirstLevel(s) + "/" + rest[1..] == FirstLevel(s) + rest;
    }
  }

  lemma JoinOne(level: string, levels: seq<string>)
    requires |levels| > 0
    ensures Join([level] + levels) == level + "/" + Join(levels)
  {
    assert ([level] + levels)[1..] == levels;
  }

  predicate PlainLevel(l: string) {
    l != "" && '/' !in l && '#' !in l && '+' !in l
  }

  /** Only non-empty levels; '+' fills its level, '#' fills the last one (4.7.1.2 and 4.7.1.3). */
  predicate WellFormedFilter(fl: seq<string>) {
    forall i :: 0 <= i < |fl| ==> PlainLevel(fl[i]) || fl[i] == "+" || (fl[i] == "#" && i == |fl| - 1)
  }

  predicate WellFormedTopic(tl: seq<string>) {
    forall i :: 0 <= i < |tl| ==> tl[i] != "" && '/' !in tl[i]
  }

  /** '#' stands for the parent level and any number of levels below it; '+' for one level. */
  predicate LevelMatch(fl: seq<string>, tl: seq<string>) {
    if fl == [] then tl == []
    else if fl[0] == "#" then true
    else tl != [] && (fl[0] == "+" || fl[0] == tl[0]) && LevelMatch(fl[1..], tl[1..])
  }

  /** A filter X/# with X ending in a literal level, against a topic with exactly the levels of X. */
  predicate MissedParent(fl: seq<string>, tl: seq<string>) {
    && |fl| >= 2 && fl[|fl| - 1] == "#" && fl[|fl| - 2] != "+" && |tl| == |fl| - 1
    && LevelMatch(fl[..|fl| - 1], tl)
  }

  // ---------- the walk against the levels ----------

  lemma {:induction false} SkipLevelOf(l: string, rest: string)
    requires '/' !in l
    requires rest == "" || rest[0] == '/'
    ensures SkipLevel(l + rest) == rest
  {
    if l == "" {
      assert l + rest == rest;
    } else {
      assert (l + rest)[1..] == l[1..] + rest;
      SkipLevelOf(l[1..], rest);
    }
  }

  /** Over one literal level the walk compares the whole level. */
  lemma {:induction false} ScanLiteral(l: string, m: string, p: string, t: string)
    requires '/' !in l && '#' !in l && '+' !in l && '/' !in m
    requires p == "" || p[0] == '/'
    requires t == "" || t[0] == '/'
    ensures Scan(l + p, m + t) == (l == m && Scan(p, t))
    decreases |l|
  {
    if l == "" {
      assert l + p == p;
      if m == "" { assert m + t == t; }
    } else if m == "" {
      assert m + t == t;
      assert (l + p)[0] == l[0];
    } else {
      assert (l + p)[0] == l[0] && (m + t)[0] == m[0];
      assert (l + p)[1..] == l[1..] + p && (m + t)[1..] == m[1..] + t;
      ScanLiteral(l[1..], m[1..], p, t);
      assert l == [l[0]] + l[1..] && m == [m[0]] + m[1..];
    }
  }

  /** What follows the first level of a joined name. */
  function Tail(levels: seq<string>): (r: string)
    requires |levels| > 0
    ensures Join(levels) == levels[0] + r
    ensures if |levels| == 1 then r == "" else r == "/" + Join(levels[1..])
  {
    if |levels| == 1 then "" else "/" + Join(levels[1..])
  }

  /** The main result about one walk over joined levels. */
  lemma {:induction false} ScanJoined(fl: seq<string>, tl: seq<string>)
    requires |fl| > 0 && WellFormedFilter(fl)
    requires |tl| > 0 && WellFormedTopic(tl)
    ensures Scan(Join(fl), Join(tl)) == (LevelMatch(fl, tl) && !MissedParent(fl, tl))
    decreases |fl|
  {
    var p, t := Tail(fl), Tail(tl);
    if fl[0] == "#" {
      assert Join(fl) == "#" && Join(tl)[0] == tl[0][0];
    } else if fl[0] == "+" {
      SkipLevelOf("+", p);
      SkipLevelOf(tl[0], t);
      assert Join(fl)[0] == '+' && Join(tl)[0] == tl[0][0];
      assert Scan(Join(fl), Join(tl)) == Scan(DropSlash(p), DropSlash(t));
      StepLevels(fl, tl);
    } else {
      ScanLiteral(fl[0], tl[0], p, t);
      StepLevels(fl, tl);
    }
  }

  /** One level on: the induction step of ScanJoined, for a first filter level other than '#'. */
  lemma {:induction false} StepLevels(fl: seq<string>, tl: seq<string>)
    requires |fl| > 0 && WellFormedFilter(fl) && fl[0] != "#"
    requires |tl| > 0 && WellFormedTopic(tl)
    ensures fl[0] == "+" ==>
      Scan(DropSlash(Tail(fl)), DropSlash(Tail(tl))) == (LevelMatch(fl, tl) && !MissedParent(fl, tl))
    ensures fl[0] != "+" ==>
      (fl[0] == tl[0] && Scan(Tail(fl), Tail(tl))) == (LevelMatch(fl, tl) && !MissedParent(fl, tl))
    decreases |fl|, 0
  {
    if |fl| == 1 {
      LastFilterLevel(fl, tl);
    } else if |tl| == 1 {
      ShortTopic(fl, tl);
    } else {
      hide Scan, MissedParent, Join;
      var f1, t1 := fl[1..], tl[1..];
      assert Tail(fl) == "/" + Join(f1) && Tail(tl) == "/" + Join(t1);
      SlashScan(Join(f1), Join(t1));
      assert WellFormedFilter(f1) && WellFormedTopic(t1);
      ScanJoined(f1, t1);
      if fl[0] == "+" || fl[0] == tl[0] { MissedParentTail(fl, tl); }
    }
  }

  lemma SlashScan(p: string, t: string)
    ensures Scan("/" + p, "/" + t) == Scan(p, t)
    ensures DropSlash("/" + p) == p && DropSlash("/" + t) == t
  {
    assert ("/" + p)[1..] == p && ("/" + t)[1..] == t;
  }

  /** The filter ends at its first level. */
  lemma LastFilterLevel(fl: seq<string>, tl: seq<string>)
    requires |fl| == 1 && WellFormedFilter(fl) && fl[0] != "#"
    requires |tl| > 0 && WellFormedTopic(tl)
    ensures fl[0] == "+" ==>
      Scan(DropSlash(Tail(fl)), DropSlash(Tail(tl))) == (LevelMatch(fl, tl) && !MissedParent(fl, tl))
    ensures fl[0] != "+" ==>
      (fl[0] == tl[0] && Scan(Tail(fl), Tail(tl))) == (LevelMatch(fl, tl) && !MissedParent(fl, tl))
  {
    if |tl| > 1 { JoinNotEmpty(tl[1..]); }
    hide Join;
    assert fl[1..] == [];
  }

  lemma JoinNotEmpty(tl: seq<string>)
    requires |tl| > 0 && WellFormedTopic(tl)
    ensures Join(tl) != ""
  {
    assert Join(tl) == tl[0] + Tail(tl);
  }

  lemma MissedParentTail(fl: seq<string>, tl: seq<string>)
    requires |fl| >= 2 && |tl| >= 2 && fl[0] != "#"
    requires fl[0] == "+" || fl[0] == tl[0]
    ensures MissedParent(fl, tl) == MissedParent(fl[1..], tl[1..])
  {
    var n := |fl| - 1;
    assert fl[..n][1..] == fl[1..][..n - 1];
  }

  /** The topic ends at the first level while the filter goes on. */
  lemma ShortTopic(fl: seq<string>, tl: seq<string>)
    requires |fl| >= 2 && WellFormedFilter(fl) && fl[0] != "#"
    requires |tl| == 1 && WellFormedTopic(tl)
    ensures fl[0] == "+" ==>
      Scan(DropSlash(Tail(fl)), DropSlash(Tail(tl))) == (LevelMatch(fl, tl) && !MissedParent(fl, tl))
    ensures fl[0] != "+" ==>
      (fl[0] == tl[0] && Scan(Tail(fl), Tail(tl))) == (LevelMatch(fl, tl) && !MissedParent(fl, tl))
  {
    var f1 := fl[1..];
    assert Tail(fl)[1..] == Join(f1);
    assert f1[0] == fl[1] && tl[1..] == [];
    assert f1[0] != "#" ==> Join(f1) != "#" && Join(f1) != "" by {
      assert Join(f1)[0] == f1[0][0];
    }
    assert Tail(fl)[0] == '/';
    assert f1[0] == "#" ==> |fl| == 2;
    if |fl| == 2 {
      var x := fl[..1];
      assert x == [fl[0]] && x[1..] == [];
      assert LevelMatch(x, tl) == (fl[0] == "+" || fl[0] == tl[0]);
    }
  }

  lemma {:induction false} ScanSelf(p: string)
    ensures Scan(p, p)
    decreases |p|
  {
    if p != "" {
      SkipLevelLength(p);
      if p[0] == '+' {
        ScanSelf(DropSlash(SkipLevel(p)));
      } else {
        ScanSelf(p[1..]);
      }
    }
  }

  /** The two early exits change nothing for a non-empty topic. */
  lemma MatchSpecIsScan(p: string, t: string)
    requires t != ""
    ensures MatchSpec(p, t) == Scan(p, t)
  {
    ScanSelf(p);
  }

  /** The matcher accepts exactly the level-wise matches, less the parent-level ones below a literal. */
  lemma MatchesIsLevelwise(pattern: string, topic: string)
    requires WellFormedFilter(Levels(pattern)) && WellFormedTopic(Levels(topic))
    ensures MatchSpec(pattern, topic) ==
            (LevelMatch(Levels(pattern), Levels(topic)) && !MissedParent(Levels(pattern), Levels(topic)))
  {
    JoinLevels(pattern);
    JoinLevels(topic);
    assert Join(Levels(topic)) == Levels(topic)[0] + Tail(Levels(topic));
    MatchSpecIsScan(pattern, topic);
    ScanJoined(Levels(pattern), Levels(topic));
  }

  /** Without '#' the agreement with the standard is exact. */
  lemma HashFreeMatchesExactly(pattern: string, topic: string)
    requires WellFormedFilter(Levels(pattern)) && WellFormedTopic(Levels(topic))
    requires '#' !in pattern
    ensures MatchSpec(pattern, topic) == LevelMatch(Levels(pattern), Levels(topic))
  {
    MatchesIsLevelwise(pattern, topic);
    var fl := Levels(pattern);
    if fl[|fl| - 1] == "#" {
      LastLevelInName(fl);
      JoinLevels(pattern);
    }
  }

  lemma {:induction false} LastLevelInName(levels: seq<string>)
    requires |levels| > 0
    ensures forall c :: c in levels[|levels| - 1] ==> c in Join(levels)
  {
    if |levels| > 1 {
      LastLevelInName(levels[1..]);
    }
  }
}
