/** The containment rules on zone names that delegation rests on. */
module Zone {
  import opened Basics
  import opened Names

  function DropDot(s: string): string {
    if s != [] && s[|s| - 1] == '.' then s[..|s| - 1] else s
  }

  /** Lower case, trimmed, and without one trailing dot. */
  function Normalise(s: string): string {
    DropDot(ToLower(TrimSpace(s)))
  }

  predicate HasSuffix(s: string, tail: string) {
    |tail| <= |s| && s[|s| - |tail|..] == tail
  }

  predicate Contains(zone: string, name: string) {
    var z, n := Normalise(zone), Normalise(name);
    z != "" && n != "" && (n == z || HasSuffix(n, "." + z))
  }

  predicate IsNarrower(child: string, parent: string) {
    var c, p := Normalise(child), Normalise(parent);
    c != "" && p != "" && c != p && HasSuffix(c, "." + p)
  }

  function Dots(s: string): nat {
    if s == [] then 0 else (if s[0] == '.' then 1 else 0) + Dots(s[1..])
  }

  function Depth(zone: string): nat {
    var z := Normalise(zone);
    if z == "" then 0 else Dots(z) + 1
  }

  // ---- the order ----

  lemma {:induction false} DotsSplit(a: string, b: string)
    ensures Dots(a + b) == Dots(a) + Dots(b)
  {
    if a == [] {
      assert a + b == b;
    } else {
      assert (a + b)[1..] == a[1..] + b;
      DotsSplit(a[1..], b);
    }
  }

  lemma SuffixSplit(s: string, tail: string)
    requires HasSuffix(s, tail)
    ensures s == s[..|s| - |tail|] + tail
  {
  }

  lemma SuffixTrans(a: string, b: string, c: string)
    requires HasSuffix(a, b) && HasSuffix(b, c)
    ensures HasSuffix(a, c)
  {
    assert a[|a| - |c|..] == a[|a| - |b|..][|b| - |c|..];
  }

  lemma DottedTail(z: string)
    ensures HasSuffix("." + z, z)
  {
  }

  /** Narrower is strictly deeper, so a chain of ever narrower zones is no longer than its depth. */
  lemma NarrowerIsDeeper(child: string, parent: string)
    requires IsNarrower(child, parent)
    ensures Depth(child) > Depth(parent) > 0 && Contains(parent, child) && !Contains(child, parent)
  {
    var c, p := Normalise(child), Normalise(parent);
    SuffixSplit(c, "." + p);
    DotsSplit(c[..|c| - |"." + p|], "." + p);
    assert Dots("." + p) == 1 + Dots(p) by {
      assert ("." + p)[1..] == p;
    }
  }

  lemma ContainedIsDeeper(zone: string, name: string)
    requires Contains(zone, name)
    ensures Depth(name) >= Depth(zone) > 0
    ensures Depth(name) == Depth(zone) <==> Normalise(name) == Normalise(zone)
    ensures Normalise(name) != Normalise(zone) ==> IsNarrower(name, zone)
  {
    if Normalise(name) != Normalise(zone) {
      NarrowerIsDeeper(name, zone);
    }
  }

  lemma ContainsIsTransitive(a: string, b: string, c: string)
    requires Contains(a, b) && Contains(b, c)
    ensures Contains(a, c)
  {
    var x, y, z := Normalise(a), Normalise(b), Normalise(c);
    if x != y && y != z {
      DottedTail(y);
      SuffixTrans(z, "." + y, y);
      SuffixTrans(z, y, "." + x);
    }
  }

  lemma ContainsIsReflexive(a: string)
    requires Normalise(a) != ""
    ensures Contains(a, a)
  {
  }

  /** Two zones that both contain a name are nested, the deeper one in the other. */
  lemma CoveringZonesNest(a: string, b: string, name: string)
    requires Contains(a, name) && Contains(b, name) && Depth(b) <= Depth(a)
    ensures Contains(b, a)
  {
    var x, y, n := Normalise(a), Normalise(b), Normalise(name);
    if x == n || y == n {
      ContainedIsDeeper(a, name);
      ContainedIsDeeper(b, name);
    } else if |x| == |y| {
      assert x == n[|n| - |x|..] == y;
    } else if |y| < |x| {
      TailOfTail(n, x, y);
    } else {
      TailOfTail(n, y, x);
      NarrowerIsDeeper(b, a);
    }
  }

  lemma TailOfTail(n: string, x: string, y: string)
    requires HasSuffix(n, "." + x) && HasSuffix(n, "." + y) && |y| < |x|
    ensures HasSuffix(x, "." + y)
  {
    var tail := "." + y;
    DottedTail(x);
    SuffixTrans(n, "." + x, x);
    assert x[|x| - |tail|..] == n[|n| - |x|..][|x| - |tail|..] == n[|n| - |tail|..];
  }

  // ---- normal form ----

  /** Normalising takes off one dot only: it is final exactly when what is left ends in neither a dot nor a space. */
  lemma NormaliseTwiceIff(s: string)
    ensures var n := Normalise(s);
            Normalise(n) == n <==> n == "" || (n[|n| - 1] != '.' && !IsSpace(n[|n| - 1]))
  {
    var n, low := Normalise(s), ToLower(TrimSpace(s));
    LowerIsLowered(TrimSpace(s));
    assert n <= low;
    assert Lowered(n);
    TrimStarts(s);
    if n != "" {
      assert low[0] == LowerChar(TrimSpace(s)[0]);
      assert !IsSpace(n[0]);
      assert TrimLeft(n) == n;
      TrimRightIsPrefix(n);
      LowerIsLowered(TrimRight(n));
      TrimRightShortens(n);
    }
  }

  lemma TrimStarts(s: string)
    ensures TrimSpace(s) != "" ==> !IsSpace(TrimSpace(s)[0])
  {
    TrimLeftStarts(s);
    TrimRightIsPrefix(TrimLeft(s));
  }

  lemma {:induction false} TrimLeftStarts(s: string)
    ensures TrimLeft(s) != "" ==> !IsSpace(TrimLeft(s)[0])
  {
    if s != [] && IsSpace(s[0]) {
      TrimLeftStarts(s[1..]);
    }
  }

  lemma {:induction false} TrimRightShortens(s: string)
    ensures |TrimRight(s)| <= |s|
    ensures s != [] && IsSpace(s[|s| - 1]) ==> |TrimRight(s)| < |s|
    ensures s != [] && !IsSpace(s[|s| - 1]) ==> TrimRight(s) == s
  {
    if s != [] && IsSpace(s[|s| - 1]) {
      TrimRightShortens(s[..|s| - 1]);
    }
  }
}
