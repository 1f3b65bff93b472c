/** Paths and their components. */
module Paths {
  import opened Bytes

  /** `/` or `\` */
  predicate IsSep(c: byte) { c == 0x2F || c == 0x5C }

  /** The number of characters in front of the first separator. */
  function Run(s: seq<byte>): (n: nat)
    ensures n <= |s| && (n < |s| ==> IsSep(s[n])) && forall i :: 0 <= i < n ==> !IsSep(s[i])
  {
    if s == [] || IsSep(s[0]) then 0 else 1 + Run(s[1..])
  }

  /** The components of a path, without the separators between and around them. */
  function Components(s: seq<byte>): seq<seq<byte>>
    decreases |s|
  {
    if s == [] then []
    else if IsSep(s[0]) then Components(s[1..])
    else [s[..Run(s)]] + Components(s[Run(s)..])
  }

  predicate IsComponent(c: seq<byte>) {
    c != [] && forall i :: 0 <= i < |c| ==> c[i] != '/' as int && c[i] != '\\' as int
  }

  /** The longest run of non-separators is the only one that ends at a separator or at the end. */
  lemma RunIs(s: seq<byte>, n: nat)
    requires n <= |s| && (n < |s| ==> IsSep(s[n])) && forall i :: 0 <= i < n ==> !IsSep(s[i])
    ensures Run(s) == n
  {
  }

  lemma {:induction false} ComponentsAre(s: seq<byte>)
    ensures forall i :: 0 <= i < |Components(s)| ==> IsComponent(Components(s)[i])
    decreases |s|
  {
    if s != [] && IsSep(s[0]) {
      ComponentsAre(s[1..]);
    } else if s != [] {
      ComponentsAre(s[Run(s)..]);
    }
  }

  lemma SingleComponent(c: seq<byte>)
    requires IsComponent(c)
    ensures Components(c) == [c]
  {
    RunIs(c, |c|);
    assert c[..|c|] == c && c[|c|..] == [];
    assert Components(c[|c|..]) == [];
  }

  /** A path that goes on with a separator behind a. */
  lemma {:induction false} SplitAtSeparator(a: seq<byte>, t: seq<byte>)
    requires t != [] && IsSep(t[0])
    ensures Components(a + t) == Components(a) + Components(t)
    decreases |a|
  {
    var s := a + t;
    if a == [] {
      assert s == t && Components(a) == [];
    } else if IsSep(a[0]) {
      assert s[1..] == a[1..] + t;
      SplitAtSeparator(a[1..], t);
    } else {
      var n := Run(a);
      FirstRun(a, t);
      SplitAtSeparator(a[n..], t);
      JoinFirst(a[..n], Components(a[n..]), Components(t));
      TakeComponent(a, n);
    }
  }

  lemma FirstRun(a: seq<byte>, t: seq<byte>)
    requires t != [] && IsSep(t[0]) && a != [] && !IsSep(a[0])
    ensures Components(a + t) == [a[..Run(a)]] + Components(a[Run(a)..] + t)
  {
    var s, n := a + t, Run(a);
    assert s[n] == if n < |a| then a[n] else t[0];
    assert s[..n] == a[..n] && s[n..] == a[n..] + t;
    TakeComponent(s, n);
  }

  lemma JoinFirst(c: seq<byte>, x: seq<seq<byte>>, y: seq<seq<byte>>)
    ensures [c] + (x + y) == ([c] + x) + y
  {
  }

  /** A separator separates: with the two lemmas above this determines the components. */
  lemma SeparatorSplits(a: seq<byte>, sep: byte, b: seq<byte>)
    requires sep == '/' as int || sep == '\\' as int
    ensures Components(a + ([sep] + b)) == Components(a) + Components(b)
  {
    SplitAtSeparator(a, [sep] + b);
    assert ([sep] + b)[1..] == b;
  }

  lemma {:induction false} SkipSeparators(s: seq<byte>, n: nat)
    requires n <= |s| && forall i :: 0 <= i < n ==> IsSep(s[i])
    ensures Components(s[n..]) == Components(s)
    decreases n
  {
    if n == 0 {
      assert s[0..] == s;
    } else {
      assert s[1..][n - 1..] == s[n..];
      SkipSeparators(s[1..], n - 1);
    }
  }

  /** The first component, and what follows the separator behind it. */
  lemma TakeComponent(s: seq<byte>, n: nat)
    requires 0 < n <= |s| && (n < |s| ==> IsSep(s[n])) && forall i :: 0 <= i < n ==> !IsSep(s[i])
    ensures Components(s) == [s[..n]] + Components(s[n..])
    ensures n < |s| ==> Components(s[n..]) == Components(s[n + 1..])
  {
    RunIs(s, n);
    if n < |s| { assert s[n..][1..] == s[n + 1..]; }
  }

  /** fatedit's `SplitPath`. */
  method SplitPath(path: seq<byte>) returns (out: seq<seq<byte>>)
    ensures out == Components(path)
  {
    out := [];
    var str := path;
    while str != []
      invariant out + Components(str) == Components(path)
      decreases |str|
    {
      var i := 0;
      while i < |str| && IsSep(str[i])
        invariant 0 <= i <= |str| && forall j :: 0 <= j < i ==> IsSep(str[j])
      {
        i := i + 1;
      }
      if i > 0 {
        SkipSeparators(str, i);
        str := str[i..];
        continue;
      }
      while i < |str| && !IsSep(str[i])
        invariant 0 <= i <= |str| && forall j :: 0 <= j < i ==> !IsSep(str[j])
      {
        i := i + 1;
      }
      TakeComponent(str, i);
      assert (out + [str[..i]]) + Components(str[i..]) == out + ([str[..i]] + Components(str[i..]));
      if i == |str| {
        assert str[..i] == str && str[i..] == [];
        out := out + [str];
        str := [];
      } else {
        out := out + [str[..i]];
        str := str[i + 1..];
      }
    }
  }
}
