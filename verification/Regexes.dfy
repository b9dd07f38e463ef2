/** Regular expressions with their textbook meaning: the reference language definitions
    that the database constraints and the JSON schema state. */
module Regexes {
  import opened Texts

  datatype Regex =
    | Class(ranges: seq<(char, char)>)
    | Cat(first: Regex, second: Regex)
    | Star(body: Regex)
    | Repeat(body: Regex, least: nat, most: nat)

  function Plus(r: Regex): Regex {
    Cat(r, Star(r))
  }

  predicate InClass(ranges: seq<(char, char)>, g: Glyph) {
    g.Rune? && exists i :: 0 <= i < |ranges| && ranges[i].0 <= g.c <= ranges[i].1
  }

  ghost predicate Matches(r: Regex, t: Text)
    decreases |t|, r, 0
  {
    match r
    case Class(ranges) => |t| == 1 && InClass(ranges, t[0])
    case Cat(a, b) => exists i :: 0 <= i <= |t| && Matches(a, t[..i]) && Matches(b, t[i..])
    case Star(a) => t == [] || exists i :: 1 <= i <= |t| && Matches(a, t[..i]) && Matches(r, t[i..])
    case Repeat(a, least, most) => exists n: nat :: least <= n <= most && Copies(a, n, t)
  }

  ghost predicate Copies(r: Regex, n: nat, t: Text)
    decreases |t|, r, n + 1
  {
    if n == 0 then t == []
    else exists i :: 0 <= i <= |t| && Matches(r, t[..i]) && Copies(r, n - 1, t[i..])
  }

  /** Copies of a character class are the texts of that length over the class. */
  lemma {:induction false} CopiesOfClass(ranges: seq<(char, char)>, n: nat, t: Text)
    ensures Copies(Class(ranges), n, t) <==> |t| == n && forall i :: 0 <= i < |t| ==> InClass(ranges, t[i])
  {
    if n > 0 {
      forall i | 0 <= i <= |t| {
        CopiesOfClass(ranges, n - 1, t[i..]);
      }
      if |t| == n && forall i :: 0 <= i < |t| ==> InClass(ranges, t[i]) {
        assert Matches(Class(ranges), t[..1]) && Copies(Class(ranges), n - 1, t[1..]);
      }
    }
  }

  /** A starred class is any text over the class. */
  lemma {:induction false} StarOfClass(ranges: seq<(char, char)>, t: Text)
    ensures Matches(Star(Class(ranges)), t) <==> forall i :: 0 <= i < |t| ==> InClass(ranges, t[i])
  {
    if t != [] {
      StarOfClass(ranges, t[1..]);
      assert Matches(Star(Class(ranges)), t) <==>
             exists i :: 1 <= i <= |t| && Matches(Class(ranges), t[..i]) && Matches(Star(Class(ranges)), t[i..]);
      if forall i :: 0 <= i < |t| ==> InClass(ranges, t[i]) {
        assert Matches(Class(ranges), t[..1]) && Matches(Star(Class(ranges)), t[1..]);
      }
      if Matches(Star(Class(ranges)), t) {
        var i :| 1 <= i <= |t| && Matches(Class(ranges), t[..i]) && Matches(Star(Class(ranges)), t[i..]);
        assert i == 1;
        forall k | 0 <= k < |t| ensures InClass(ranges, t[k]) {
          if k > 0 { assert t[k] == t[1..][k - 1]; }
        }
      }
    }
  }
}
