/**
 * Names as text and as labels. Case folding and white space are those of ASCII.
 */
module Names {
  import opened Basics

  type Labels = seq<string>

  // ---- strings ----

  function LowerChar(c: char): char {
    if 'A' <= c <= 'Z' then c + 32 as char else c
  }

  function ToLower(s: string): (r: string)
    ensures |r| == |s|
  {
    seq(|s|, i requires 0 <= i < |s| => LowerChar(s[i]))
  }

  predicate IsSpace(c: char) {
    c == ' ' || '\t' <= c <= '\r'
  }

  function TrimLeft(s: string): string {
    if s != [] && IsSpace(s[0]) then TrimLeft(s[1..]) else s
  }

  function TrimRight(s: string): string {
    if s != [] && IsSpace(s[|s| - 1]) then TrimRight(s[..|s| - 1]) else s
  }

  function TrimSpace(s: string): string {
    TrimRight(TrimLeft(s))
  }

  /** Splits at every dot; k dots give k + 1 pieces. */
  function Split(s: string): (r: seq<string>)
    ensures r != []
  {
    if s == [] then [[]]
    else
      var rest := Split(s[1..]);
      if s[0] == '.' then [[]] + rest else [[s[0]] + rest[0]] + rest[1..]
  }

  function Join(pieces: seq<string>): string {
    if pieces == [] then []
    else if |pieces| == 1 then pieces[0]
    else pieces[0] + "." + Join(pieces[1..])
  }

  function Reverse<T>(s: seq<T>): (r: seq<T>)
    ensures |r| == |s|
  {
    if s == [] then [] else Reverse(s[1..]) + [s[0]]
  }

  function Cleaned(pieces: seq<string>): seq<string> {
    if pieces == [] then []
    else
      var l := TrimSpace(pieces[0]);
      (if l == [] then [] else [l]) + Cleaned(pieces[1..])
  }

  /** The labels of a name, root-most first. */
  function SplitName(fqdn: string): Labels {
    Reverse(Cleaned(Split(TrimSpace(ToLower(fqdn)))))
  }

  /** The written form of a list of labels. */
  function NameOf(labels: Labels): string {
    Join(Reverse(labels))
  }

  // ---- labels that survive the trip ----

  predicate Lowered(s: string) {
    forall i :: 0 <= i < |s| ==> LowerChar(s[i]) == s[i]
  }

  predicate Tidy(s: string) {
    && Lowered(s)
    && (s != [] ==> !IsSpace(s[0]) && !IsSpace(s[|s| - 1]))
  }

  predicate GoodLabel(l: string) {
    l != [] && '.' !in l && Tidy(l)
  }

  predicate GoodLabels(ls: seq<string>) {
    forall i :: 0 <= i < |ls| ==> GoodLabel(ls[i])
  }

  lemma {:induction false} TrimLeftKeeps(s: string)
    requires Lowered(s)
    ensures Lowered(TrimLeft(s)) && ('.' !in s ==> '.' !in TrimLeft(s))
    ensures TrimLeft(s) != [] ==> !IsSpace(TrimLeft(s)[0])
  {
    if s != [] && IsSpace(s[0]) {
      TrimLeftKeeps(s[1..]);
    }
  }

  lemma {:induction false} TrimRightIsPrefix(s: string)
    ensures TrimRight(s) <= s
    ensures TrimRight(s) != [] ==> !IsSpace(TrimRight(s)[|TrimRight(s)| - 1])
  {
    if s != [] && IsSpace(s[|s| - 1]) {
      TrimRightIsPrefix(s[..|s| - 1]);
    }
  }

  lemma TrimSpaceIsTidy(s: string)
    requires Lowered(s)
    ensures Tidy(TrimSpace(s))
    ensures '.' !in s ==> '.' !in TrimSpace(s)
  {
    TrimLeftKeeps(s);
    TrimRightIsPrefix(TrimLeft(s));
  }

  lemma LowerIsLowered(s: string)
    ensures Lowered(ToLower(s))
    ensures Lowered(s) ==> ToLower(s) == s
  {
  }

  lemma TrimTidy(s: string)
    requires Tidy(s)
    ensures TrimSpace(s) == s
  {
  }

  lemma {:induction false} SplitPieces(s: string)
    requires Lowered(s)
    ensures forall i :: 0 <= i < |Split(s)| ==> '.' !in Split(s)[i] && Lowered(Split(s)[i])
  {
    if s != [] {
      SplitPieces(s[1..]);
    }
  }

  lemma {:induction false} CleanedAreGood(pieces: seq<string>)
    requires forall i :: 0 <= i < |pieces| ==> '.' !in pieces[i] && Lowered(pieces[i])
    ensures GoodLabels(Cleaned(pieces))
  {
    if pieces != [] {
      TrimSpaceIsTidy(pieces[0]);
      CleanedAreGood(pieces[1..]);
    }
  }

  lemma {:induction false} ReverseKeepsGood(ls: seq<string>)
    requires GoodLabels(ls)
    ensures GoodLabels(Reverse(ls))
  {
    if ls != [] {
      ReverseKeepsGood(ls[1..]);
    }
  }

  /** Whatever text comes in, the labels are lower-case, trimmed, non-empty and free of dots. */
  lemma SplitNameIsGood(fqdn: string)
    ensures GoodLabels(SplitName(fqdn))
  {
    var s := TrimSpace(ToLower(fqdn));
    LowerIsLowered(fqdn);
    TrimSpaceIsTidy(ToLower(fqdn));
    SplitPieces(s);
    CleanedAreGood(Split(s));
    ReverseKeepsGood(Cleaned(Split(s)));
  }

  // ---- writing and reading back ----

  lemma {:induction false} SplitPiece(l: string, rest: string)
    requires '.' !in l
    ensures Split(l + "." + rest) == [l] + Split(rest)
    ensures Split(l) == [l]
  {
    if l == [] {
      assert l + "." + rest == "." + rest;
      assert ("." + rest)[1..] == rest;
    } else {
      SplitPiece(l[1..], rest);
      var s := l + "." + rest;
      assert s[1..] == l[1..] + "." + rest;
      assert Split(s) == [[l[0]] + l[1..]] + Split(rest);
      assert [l[0]] + l[1..] == l;
    }
  }

  lemma {:induction false} SplitJoin(ls: seq<string>)
    requires ls != [] && GoodLabels(ls)
    ensures Split(Join(ls)) == ls
  {
    if |ls| == 1 {
      SplitPiece(ls[0], "");
    } else {
      SplitJoin(ls[1..]);
      SplitPiece(ls[0], Join(ls[1..]));
    }
  }

  lemma {:induction false} JoinIsTidy(ls: seq<string>)
    requires ls != [] && GoodLabels(ls)
    ensures Join(ls) != [] && Tidy(Join(ls))
  {
    if |ls| > 1 {
      JoinIsTidy(ls[1..]);
      var a, b := ls[0], Join(ls[1..]);
      var s := a + "." + b;
      assert GoodLabel(a);
      assert s[0] == a[0] && s[|s| - 1] == b[|b| - 1];
    }
  }

  lemma {:induction false} CleanGood(ls: seq<string>)
    requires GoodLabels(ls)
    ensures Cleaned(ls) == ls
  {
    if ls != [] {
      TrimTidy(ls[0]);
      CleanGood(ls[1..]);
    }
  }

  lemma {:induction false} ReverseAppend<T>(a: seq<T>, b: seq<T>)
    ensures Reverse(a + b) == Reverse(b) + Reverse(a)
  {
    if a == [] {
      assert a + b == b;
    } else {
      assert (a + b)[1..] == a[1..] + b;
      ReverseAppend(a[1..], b);
    }
  }

  lemma {:induction false} ReverseTwice<T>(s: seq<T>)
    ensures Reverse(Reverse(s)) == s
  {
    if s != [] {
      ReverseTwice(s[1..]);
      ReverseAppend(Reverse(s[1..]), [s[0]]);
      assert Reverse([s[0]]) == [s[0]] by { assert [s[0]][1..] == []; }
    }
  }

  /** Writing well-formed labels as a name and splitting the name gives the labels back. */
  lemma NameRoundTrip(labels: Labels)
    requires labels != [] && GoodLabels(labels)
    ensures SplitName(NameOf(labels)) == labels
  {
    var r := Reverse(labels);
    ReverseKeepsGood(labels);
    JoinIsTidy(r);
    LowerIsLowered(Join(r));
    TrimTidy(Join(r));
    SplitJoin(r);
    CleanGood(r);
    ReverseTwice(labels);
  }

  lemma NamesDiffer(a: Labels, b: Labels)
    requires a != [] && b != [] && GoodLabels(a) && GoodLabels(b) && NameOf(a) == NameOf(b)
    ensures a == b
  {
    NameRoundTrip(a);
    NameRoundTrip(b);
  }

  // ---- the loops of splitName ----

  lemma {:induction false} ReverseAt<T>(s: seq<T>, k: nat)
    requires k < |s|
    ensures Reverse(s)[k] == s[|s| - 1 - k]
  {
    if k < |s| - 1 {
      ReverseAt(s[1..], k);
      assert s[1..][|s| - 2 - k] == s[|s| - 1 - k];
    }
  }

  lemma {:induction false} CleanedAppend(a: seq<string>, b: seq<string>)
    ensures Cleaned(a + b) == Cleaned(a) + Cleaned(b)
  {
    if a == [] {
      assert a + b == b;
    } else {
      assert (a + b)[1..] == a[1..] + b;
      CleanedAppend(a[1..], b);
    }
  }

  /** Exchanges both ends until they meet. */
  method ReverseInPlace(labels: Labels) returns (out: Labels)
    ensures out == Reverse(labels)
  {
    out := labels;
    var i, j := 0, |out| - 1;
    while i < j
      invariant |out| == |labels| && 0 <= i && j == |labels| - 1 - i && i <= j + 1
      invariant forall k :: 0 <= k < i ==> out[k] == labels[|labels| - 1 - k]
      invariant forall k :: i <= k <= j ==> out[k] == labels[k]
      invariant forall k :: j < k < |labels| ==> out[k] == labels[|labels| - 1 - k]
    {
      var first, last := out[i], out[j];
      out := out[i := last];
      out := out[j := first];
      i, j := i + 1, j - 1;
    }
    forall k | 0 <= k < |labels|
      ensures out[k] == Reverse(labels)[k]
    {
      ReverseAt(labels, k);
    }
  }

  method SplitLabels(fqdn: string) returns (out: Labels)
    ensures out == SplitName(fqdn)
  {
    var pieces := Split(TrimSpace(ToLower(fqdn)));
    out := [];
    for i := 0 to |pieces|
      invariant out == Cleaned(pieces[..i])
    {
      var l := TrimSpace(pieces[i]);
      assert pieces[..i + 1] == pieces[..i] + [pieces[i]];
      CleanedAppend(pieces[..i], [pieces[i]]);
      assert [pieces[i]][1..] == [];
      if l != "" {
        out := out + [l];
      }
    }
    assert pieces[..|pieces|] == pieces;
    out := ReverseInPlace(out);
  }
}
