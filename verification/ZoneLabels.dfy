/** Containment as text and as labels: where the two agree, and the names on which they do not. */
module ZoneLabels {
  import opened Basics
  import opened Names
  import opened Zone

  // ---- splitting the normal form ----

  function AddChar(c: char, pieces: seq<string>): seq<string>
    requires pieces != []
  {
    if c == '.' then [[]] + pieces else [[c] + pieces[0]] + pieces[1..]
  }

  lemma AddCharAppend(c: char, x: seq<string>, y: seq<string>)
    requires x != []
    ensures AddChar(c, x + y) == AddChar(c, x) + y
  {
    assert (x + y)[1..] == x[1..] + y;
  }

  lemma {:induction false} SplitAppend(a: string, b: string)
    ensures Split(a + "." + b) == Split(a) + Split(b)
  {
    var s := a + "." + b;
    if a == [] {
      assert s[1..] == b;
    } else {
      SplitAppend(a[1..], b);
      assert s[1..] == a[1..] + "." + b;
      AddCharAppend(a[0], Split(a[1..]), Split(b));
      assert Split(s) == AddChar(s[0], Split(s[1..]));
    }
  }

  lemma {:induction false} TrimLeftLower(s: string)
    ensures TrimLeft(ToLower(s)) == ToLower(TrimLeft(s))
  {
    if s != [] && IsSpace(s[0]) {
      TrimLeftLower(s[1..]);
      assert ToLower(s)[1..] == ToLower(s[1..]);
    }
  }

  lemma {:induction false} TrimRightLower(s: string)
    ensures TrimRight(ToLower(s)) == ToLower(TrimRight(s))
  {
    if s != [] && IsSpace(s[|s| - 1]) {
      TrimRightLower(s[..|s| - 1]);
      assert ToLower(s)[..|s| - 1] == ToLower(s[..|s| - 1]);
    }
  }

  /** The labels of a name are those of its normal form. */
  lemma SplitNormalised(name: string)
    ensures SplitName(name) == Reverse(Cleaned(Split(Normalise(name))))
  {
    TrimLeftLower(name);
    TrimRightLower(TrimLeft(name));
    var low, n := ToLower(TrimSpace(name)), Normalise(name);
    assert low == TrimSpace(ToLower(name));
    if low != n {
      assert low == n + "." + "";
      SplitAppend(n, "");
      CleanedAppend(Split(n), [""]);
      assert [""][1..] == [] && Cleaned([""]) == [];
      assert Cleaned(Split(low)) == Cleaned(Split(n));
    }
  }

  // ---- well-formed zones ----

  predicate GoodZone(labels: Labels) {
    labels != [] && GoodLabels(labels)
  }

  lemma {:induction false} JoinEndsWell(ls: seq<string>)
    requires ls != [] && GoodLabels(ls)
    ensures Join(ls) != [] && Join(ls)[|Join(ls)| - 1] != '.'
    ensures Dots(Join(ls)) == |ls| - 1
  {
    assert GoodLabel(ls[0]);
    NoDots(ls[0]);
    if |ls| > 1 {
      JoinEndsWell(ls[1..]);
      DotsSplit(ls[0] + ".", Join(ls[1..]));
      DotsSplit(ls[0], ".");
    }
  }

  lemma {:induction false} NoDots(s: string)
    requires '.' !in s
    ensures Dots(s) == 0
  {
    if s != [] {
      NoDots(s[1..]);
    }
  }

  lemma ZoneText(labels: Labels)
    requires GoodZone(labels)
    ensures NameOf(labels) != "" && Normalise(NameOf(labels)) == NameOf(labels)
    ensures Depth(NameOf(labels)) == |labels|
    ensures SplitName(NameOf(labels)) == labels
  {
    var r := Reverse(labels);
    ReverseKeepsGood(labels);
    JoinIsTidy(r);
    JoinEndsWell(r);
    TrimTidy(Join(r));
    LowerIsLowered(Join(r));
    NameRoundTrip(labels);
  }

  lemma {:induction false} JoinAppend(a: seq<string>, b: seq<string>)
    requires a != [] && b != []
    ensures Join(a + b) == Join(a) + "." + Join(b)
  {
    if |a| == 1 {
      assert (a + b)[1..] == b;
    } else {
      assert (a + b)[1..] == a[1..] + b;
      JoinAppend(a[1..], b);
      assert a[0] + "." + (Join(a[1..]) + "." + Join(b)) == a[0] + "." + Join(a[1..]) + "." + Join(b);
    }
  }

  lemma TailIsSuffix(u: string, z: string)
    ensures HasSuffix(u + "." + z, "." + z)
  {
    assert u + "." + z == u + ("." + z);
  }

  lemma PrefixContains(a: Labels, b: Labels)
    requires GoodZone(a) && GoodZone(b) && a <= b
    ensures Contains(NameOf(a), NameOf(b))
  {
    ZoneText(a);
    ZoneText(b);
    if a != b {
      var rest := b[|a|..];
      assert b == a + rest;
      ReverseAppend(a, rest);
      JoinAppend(Reverse(rest), Reverse(a));
      TailIsSuffix(Join(Reverse(rest)), NameOf(a));
    }
  }

  /** Text containment is never wrong when it says yes. */
  lemma ContainedHasPrefix(zone: Labels, name: string)
    requires GoodZone(zone) && Contains(NameOf(zone), name)
    ensures zone <= SplitName(name)
  {
    ZoneText(zone);
    SplitNormalised(name);
    var n, z := Normalise(name), NameOf(zone);
    ReverseKeepsGood(zone);
    SplitJoin(Reverse(zone));
    CleanGood(Reverse(zone));
    ReverseTwice(zone);
    if n != z {
      SuffixSplit(n, "." + z);
      var u := n[..|n| - |"." + z|];
      assert n == u + "." + z;
      SplitAppend(u, z);
      CleanedAppend(Split(u), Split(z));
      ReverseAppend(Cleaned(Split(u)), Reverse(zone));
    }
  }

  /** On well-formed names containment is exactly the prefix order of the labels. */
  lemma ContainsIsPrefix(a: Labels, b: Labels)
    requires GoodZone(a) && GoodZone(b)
    ensures Contains(NameOf(a), NameOf(b)) <==> a <= b
    ensures IsNarrower(NameOf(b), NameOf(a)) <==> a < b
  {
    ZoneText(a);
    ZoneText(b);
    if a <= b {
      PrefixContains(a, b);
    }
    if Contains(NameOf(a), NameOf(b)) {
      ContainedHasPrefix(a, NameOf(b));
    }
    if NameOf(a) == NameOf(b) {
      NamesDiffer(a, b);
    }
    assert a <= b && |a| == |b| ==> a == b;
  }

  /**
   * A name is honest when its own text contains the name its labels spell. Text such as
   * "x.eng..com" is not: an empty label separates the text from the zone it is split into.
   */
  predicate Honest(name: string) {
    SplitName(name) == [] || Contains(NameOf(SplitName(name)), name)
  }

  ghost predicate GuardsAgree(name: string) {
    forall zone :: GoodZone(zone) ==> (Contains(NameOf(zone), name) <==> zone <= SplitName(name))
  }

  /** The text test and the labels agree on every zone exactly for honest names. */
  lemma GuardExactIff(name: string)
    ensures GuardsAgree(name) <==> Honest(name)
  {
    var s := SplitName(name);
    SplitNameIsGood(name);
    if s != [] && GuardsAgree(name) {
      assert GoodZone(s);
    }
    if Honest(name) {
      forall zone | GoodZone(zone)
        ensures Contains(NameOf(zone), name) <==> zone <= s
      {
        HonestGuard(name, zone);
      }
    }
  }

  lemma HonestGuard(name: string, zone: Labels)
    requires Honest(name) && GoodZone(zone)
    ensures Contains(NameOf(zone), name) <==> zone <= SplitName(name)
  {
    SplitNameIsGood(name);
    if zone <= SplitName(name) {
      PrefixContains(zone, SplitName(name));
      ContainsIsTransitive(NameOf(zone), NameOf(SplitName(name)), name);
    }
    if Contains(NameOf(zone), name) {
      ContainedHasPrefix(zone, name);
    }
  }

  /** Well-formed text is honest. */
  lemma WrittenIsHonest(labels: Labels)
    requires GoodZone(labels)
    ensures Honest(NameOf(labels)) && SplitName(NameOf(labels)) == labels
  {
    ZoneText(labels);
    ContainsIsReflexive(NameOf(labels));
  }

  // ---- the text of a zone around a well-formed one ----

  lemma SuffixDot(s: string, w: string)
    requires HasSuffix(s, "." + w)
    ensures |w| < |s| && s[|s| - |w| - 1] == '.'
  {
    assert s[|s| - |w| - 1] == s[|s| - |"." + w|..][0];
  }

  lemma SuffixWithin(a: string, b: string, w: string)
    requires '.' !in a && HasSuffix(a + "." + b, "." + w)
    ensures w == b || HasSuffix(b, "." + w)
  {
    var s, tail := a + "." + b, "." + w;
    assert s == a + ("." + b);
    if |w| == |b| {
      assert s[|s| - |tail|..] == "." + b;
      assert ("." + b)[1..] == b && tail[1..] == w;
    } else if |w| < |b| {
      assert b[|b| - |tail|..] == s[|s| - |tail|..];
    } else {
      SuffixDot(s, w);
    }
  }

  lemma NoDotSuffix(s: string, w: string)
    requires '.' !in s
    ensures !HasSuffix(s, "." + w)
  {
    if HasSuffix(s, "." + w) {
      SuffixDot(s, w);
    }
  }

  lemma {:induction false} TailOfJoin(ls: seq<string>, w: string) returns (j: nat)
    requires ls != [] && GoodLabels(ls) && HasSuffix(Join(ls), "." + w)
    ensures 0 < j < |ls| && w == Join(ls[j..])
    decreases |ls|
  {
    assert GoodLabel(ls[0]);
    NoDotSuffix(ls[0], w);
    assert |ls| > 1;
    SuffixWithin(ls[0], Join(ls[1..]), w);
    if w == Join(ls[1..]) {
      j := 1;
    } else {
      var k := TailOfJoin(ls[1..], w);
      j := k + 1;
      assert ls[1..][k..] == ls[j..];
    }
  }

  lemma {:induction false} ReverseTail<T>(s: seq<T>, j: nat)
    requires j <= |s|
    ensures Reverse(s)[j..] == Reverse(s[..|s| - j])
  {
    var k := |s| - j;
    assert s == s[..k] + s[k..];
    ReverseAppend(s[..k], s[k..]);
  }

  /** A zone that a well-formed one lies strictly beneath is itself written as the first of its labels. */
  lemma NarrowerZone(z: Labels, own: string) returns (o: Labels)
    requires GoodZone(z) && IsNarrower(NameOf(z), own)
    ensures GoodZone(o) && o < z && Normalise(own) == NameOf(o)
    ensures forall name :: Contains(own, name) <==> Contains(NameOf(o), name)
  {
    ZoneText(z);
    ReverseKeepsGood(z);
    var j := TailOfJoin(Reverse(z), Normalise(own));
    ReverseTail(z, j);
    o := z[..|z| - j];
    assert GoodLabels(o);
    ZoneText(o);
  }
}
