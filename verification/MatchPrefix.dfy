/** The glob matcher mg_match_prefix of webserver/src/mongoose.c. Strings and
    patterns contain no NUL; a string ends where C has its NUL. */
module MatchPrefix {

  function Lower(c: char): char {
    if 'A' <= c <= 'Z' then (c as int + 32) as char else c
  }

  /** Two characters are compared without regard to the case of ASCII letters. */
  lemma SameLetter(c: char, d: char)
    ensures var x, y := c as int, d as int;
      Lower(c) == Lower(d) <==> (x == y || (65 <= x <= 90 && y == x + 32) || (65 <= y <= 90 && x == y + 32))
  {
  }

  // strcspn(s, "/")
  function Span(s: string): (n: nat)
    ensures n <= |s|
    ensures forall i :: 0 <= i < n ==> s[i] != '/'
    ensures n < |s| ==> s[n] == '/'
  {
    if s == "" || s[0] == '/' then 0 else 1 + Span(s[1..])
  }

  // ----- what a pattern means -----

  predicate Deep(p: string) {
    |p| >= 2 && p[0] == '*' && p[1] == '*'
  }

  // The pattern after a leading * or **.
  function AfterStar(p: string): (q: string)
    requires p != "" && p[0] == '*'
    ensures |q| < |p|
  {
    if Deep(p) then p[2..] else p[1..]
  }

  // * stands for any characters except slashes, ** for any characters.
  predicate StarCovers(p: string, w: string)
    requires p != "" && p[0] == '*'
  {
    Deep(p) || '/' !in w
  }

  /** The first r characters of s match p. A dollar sign matches nothing, at the
      end of s only; what follows it in the pattern is ignored. */
  ghost predicate Matches(p: string, s: string, r: nat)
    decreases |p|
  {
    if p == "" then r == 0
    else if p[0] == '$' then s == "" && r == 0
    else if p[0] == '*' then
      exists k: nat {:trigger s[k..]} :: k <= |s| && k <= r && StarCovers(p, s[..k]) && Matches(AfterStar(p), s[k..], r - k)
    else
      && s != "" && r > 0 && (p[0] == '?' || Lower(p[0]) == Lower(s[0]))
      && Matches(p[1..], s[1..], r - 1)
  }

  // ----- the search -----

  function Shift(j: nat, res: int): int {
    if res == -1 then -1 else j + res
  }

  function Reach(p: string, s: string): (n: nat)
    requires p != "" && p[0] == '*'
    ensures n <= |s|
  {
    if Deep(p) then |s| else Span(s)
  }

  // The result for a pattern without alternatives.
  function Greedy(p: string, s: string): (res: int)
    ensures res >= -1
    decreases |p|, 0
  {
    if p == "" then 0
    else if p[0] == '$' then if s == "" then 0 else -1
    else if p[0] == '*' then Try(AfterStar(p), s, Reach(p, s))
    else if s != "" && (p[0] == '?' || Lower(p[0]) == Lower(s[0])) then Shift(1, Greedy(p[1..], s[1..]))
    else -1
  }

  // A star takes n characters, or fewer if the rest does not match after them.
  function Try(p: string, s: string, n: nat): (res: int)
    requires n <= |s|
    ensures res >= -1
    decreases |p|, n + 1
  {
    var res := Greedy(p, s[n..]);
    if res != -1 then n + res else if n == 0 then -1 else Try(p, s, n - 1)
  }

  /** The first alternative with a positive match decides, or else the last one. */
  function Result(p: string, s: string): int
    decreases |p|
  {
    if '|' in p then
      var bar := IndexOf(p, '|');
      var res := Greedy(p[..bar], s);
      if res > 0 then res else Result(p[bar + 1..], s)
    else Greedy(p, s)
  }

  // memchr
  function IndexOf(p: string, c: char): (i: nat)
    requires c in p
    ensures i < |p| && p[i] == c && c !in p[..i]
  {
    if p[0] == c then 0 else 1 + IndexOf(p[1..], c)
  }

  // ----- the search finds exactly the matches -----

  lemma StarReach(p: string, s: string, k: nat)
    requires p != "" && p[0] == '*' && k <= |s|
    ensures StarCovers(p, s[..k]) <==> k <= Reach(p, s)
  {
    if !Deep(p) && k > Span(s) {
      assert s[..k][Span(s)] == '/';
    }
  }

  /** A non-negative result is the length of a prefix that matches. */
  lemma {:induction false} GreedySound(p: string, s: string)
    requires Greedy(p, s) != -1
    ensures Matches(p, s, Greedy(p, s))
    decreases |p|, 0
  {
    if p == "" || p[0] == '$' {
    } else if p[0] == '*' {
      var k := TrySound(AfterStar(p), s, Reach(p, s));
      StarReach(p, s, k);
      assert Matches(AfterStar(p), s[k..], Greedy(p, s) - k);
    } else {
      GreedySound(p[1..], s[1..]);
    }
  }

  lemma {:induction false} TrySound(p: string, s: string, n: nat) returns (k: nat)
    requires n <= |s| && Try(p, s, n) != -1
    ensures k <= n && k <= Try(p, s, n) && Matches(p, s[k..], Try(p, s, n) - k)
    ensures forall m {:trigger Greedy(p, s[m..])} :: k < m <= n ==> Greedy(p, s[m..]) == -1
    decreases |p|, n + 1
  {
    if Greedy(p, s[n..]) != -1 {
      GreedySound(p, s[n..]);
      k := n;
    } else {
      k := TrySound(p, s, n - 1);
    }
  }

  /** Backtracking misses no match. */
  lemma {:induction false} GreedyComplete(p: string, s: string, r: nat)
    requires Matches(p, s, r)
    ensures Greedy(p, s) != -1 && r <= |s|
    decreases |p|
  {
    if p == "" || p[0] == '$' {
    } else if p[0] == '*' {
      var k: nat :| k <= |s| && k <= r && StarCovers(p, s[..k]) && Matches(AfterStar(p), s[k..], r - k);
      StarReach(p, s, k);
      GreedyComplete(AfterStar(p), s[k..], r - k);
      TryReaches(AfterStar(p), s, Reach(p, s), k);
    } else {
      GreedyComplete(p[1..], s[1..], r - 1);
    }
  }

  lemma {:induction false} TryReaches(p: string, s: string, n: nat, k: nat)
    requires k <= n <= |s| && Greedy(p, s[k..]) != -1
    ensures Try(p, s, n) != -1
    decreases n
  {
    if k < n && Greedy(p, s[n..]) == -1 {
      TryReaches(p, s, n - 1, k);
    }
  }

  /** Of all ways to match, a star takes the longest after which the rest matches. */
  lemma StarsTakeMost(p: string, s: string) returns (k: nat)
    requires p != "" && p[0] == '*' && Greedy(p, s) != -1
    ensures k <= |s| && StarCovers(p, s[..k]) && Greedy(p, s) == k + Greedy(AfterStar(p), s[k..])
    ensures forall m, r {:trigger Matches(AfterStar(p), s[m..], r)} ::
      k < m <= |s| && StarCovers(p, s[..m]) ==> !Matches(AfterStar(p), s[m..], r)
  {
    var q := AfterStar(p);
    k := TryTakes(q, s, Reach(p, s));
    StarReach(p, s, k);
    forall m: nat, r: nat | k < m <= |s| && StarCovers(p, s[..m]) ensures !Matches(q, s[m..], r) {
      StarReach(p, s, m);
      if Matches(q, s[m..], r) {
        GreedyComplete(q, s[m..], r);
        assert false;
      }
    }
  }

  lemma {:induction false} TryTakes(p: string, s: string, n: nat) returns (k: nat)
    requires n <= |s| && Try(p, s, n) != -1
    ensures k <= n && Greedy(p, s[k..]) != -1 && Try(p, s, n) == k + Greedy(p, s[k..])
    ensures forall m {:trigger Greedy(p, s[m..])} :: k < m <= n ==> Greedy(p, s[m..]) == -1
    decreases n
  {
    if Greedy(p, s[n..]) != -1 {
      k := n;
    } else {
      k := TryTakes(p, s, n - 1);
    }
  }

  // ----- alternatives -----

  function Alternatives(p: string): (a: seq<string>)
    ensures a != []
    decreases |p|
  {
    if '|' in p then [p[..IndexOf(p, '|')]] + Alternatives(p[IndexOf(p, '|') + 1..]) else [p]
  }

  // Alternative i is the first with a positive match, or the last one without any.
  predicate Decides(a: seq<string>, s: string, i: nat)
    requires i < |a|
  {
    (forall k :: 0 <= k < i ==> Greedy(a[k], s) <= 0) && (Greedy(a[i], s) > 0 || i == |a| - 1)
  }

  lemma DecidesLater(first: string, a: seq<string>, s: string, i: nat)
    requires i < |a| && Decides(a, s, i) && Greedy(first, s) <= 0
    ensures Decides([first] + a, s, i + 1)
  {
    forall k | 0 <= k < i + 1 ensures Greedy(([first] + a)[k], s) <= 0 {
      assert k > 0 ==> ([first] + a)[k] == a[k - 1];
    }
  }

  lemma {:induction false} AlternativesInOrder(p: string, s: string) returns (i: nat)
    ensures i < |Alternatives(p)| && Decides(Alternatives(p), s, i) && Result(p, s) == Greedy(Alternatives(p)[i], s)
    decreases |p|
  {
    i := 0;
    if '|' in p {
      var first, rest := p[..IndexOf(p, '|')], p[IndexOf(p, '|') + 1..];
      if Greedy(first, s) <= 0 {
        var k := AlternativesInOrder(rest, s);
        DecidesLater(first, Alternatives(rest), s, k);
        i := k + 1;
      }
    }
  }

  // ----- mg_match_prefix -----

  function At(s: string, j: nat): char {
    if j < |s| then s[j] else '\0'
  }

  predicate Text(s: string) {
    '\0' !in s
  }

  // The search comes to a single star at the end of a pattern without alternatives.
  predicate ReachesEnd(p: string, s: string)
    decreases |p|, 0
  {
    if p == "" || p[0] == '$' then false
    else if p[0] == '*' then p == "*" || TriesReachEnd(AfterStar(p), s, Reach(p, s))
    else s != "" && (p[0] == '?' || Lower(p[0]) == Lower(s[0])) && ReachesEnd(p[1..], s[1..])
  }

  predicate TriesReachEnd(p: string, s: string, n: nat)
    requires n <= |s|
    decreases |p|, n + 1
  {
    ReachesEnd(p, s[n..]) || (Greedy(p, s[n..]) == -1 && n > 0 && TriesReachEnd(p, s, n - 1))
  }

  // The character after the pattern is read.
  predicate EndIsRead(p: string, s: string)
    decreases |p|
  {
    if '|' in p then
      var bar := IndexOf(p, '|');
      Greedy(p[..bar], s) <= 0 && EndIsRead(p[bar + 1..], s)
    else ReachesEnd(p, s)
  }

  /** The code looks at the character after the pattern when it comes to a single star
      at its end; if there is a star too, the search goes on behind the end. */
  method MatchPrefix(pattern: string, after: char, str: string) returns (res: int)
    requires Text(pattern) && Text(str) && (after == '*' ==> !EndIsRead(pattern, str))
    ensures res == Result(pattern, str)
    ensures '|' !in pattern ==> (res >= 0 <==> exists r :: Matches(pattern, str, r))
    ensures '|' !in pattern && res >= 0 ==> Matches(pattern, str, res)
    decreases |pattern|, 2
  {
    if '|' in pattern {
      var bar := IndexOf(pattern, '|');
      res := MatchPrefix(pattern[..bar], '|', str);
      if res <= 0 {
        res := MatchPrefix(pattern[bar + 1..], after, str);
      }
    } else {
      res := MatchOne(pattern, after, str);
      Exactly(pattern, str);
    }
  }

  lemma Exactly(p: string, s: string)
    ensures Greedy(p, s) >= 0 <==> exists r :: Matches(p, s, r)
    ensures Greedy(p, s) >= 0 ==> Matches(p, s, Greedy(p, s))
  {
    if Greedy(p, s) >= 0 {
      GreedySound(p, s);
      var r: nat := Greedy(p, s);
      assert Matches(p, s, r);
    } else {
      forall r: nat | Matches(p, s, r) ensures false {
        GreedyComplete(p, s, r);
      }
    }
  }

  lemma OneConsumed(p: string, s: string, i: nat, j: nat)
    requires i < |p| && j < |s| && p[i] != '$' && p[i] != '*' && (p[i] == '?' || Lower(p[i]) == Lower(s[j]))
    requires Greedy(p, s) == Shift(j, Greedy(p[i..], s[j..]))
    ensures Greedy(p, s) == Shift(j + 1, Greedy(p[i + 1..], s[j + 1..]))
    ensures ReachesEnd(p[i..], s[j..]) == ReachesEnd(p[i + 1..], s[j + 1..])
  {
    assert p[i..][1..] == p[i + 1..] && s[j..][1..] == s[j + 1..];
  }

  // The loop over a pattern without alternatives.
  method MatchOne(pattern: string, after: char, str: string) returns (res: int)
    requires Text(pattern) && Text(str) && '|' !in pattern && (after == '*' ==> !ReachesEnd(pattern, str))
    ensures res == Greedy(pattern, str)
    decreases |pattern|, 1
  {
    var i, j := 0, 0;
    while i < |pattern|
      invariant i <= |pattern| && j <= |str| 
      invariant after == '*' ==> !ReachesEnd(pattern[i..], str[j..])
      invariant Greedy(pattern, str) == Shift(j, Greedy(pattern[i..], str[j..]))
    {
      if pattern[i] == '?' && At(str, j) != '\0' {
      } else if pattern[i] == '$' {
        return if At(str, j) == '\0' then j else -1;
      } else if pattern[i] == '*' {
        res := MatchStar(pattern[i..], after, str[j..]);
        return if res == -1 then -1 else j + res;
      } else if Lower(pattern[i]) != Lower(At(str, j)) {
        return -1;
      }
      OneConsumed(pattern, str, i, j);
      i, j := i + 1, j + 1;
    }
    res := j;
  }

  // A star: the longest run first, then shorter ones.
  method MatchStar(pattern: string, after: char, str: string) returns (res: int)
    requires Text(pattern) && Text(str) && '|' !in pattern && (after == '*' ==> !ReachesEnd(pattern, str))
    requires pattern != "" && pattern[0] == '*'
    ensures res == Greedy(pattern, str)
    decreases |pattern|, 0
  {
    var i, len := 1, 0;
    if (if i < |pattern| then pattern[i] else after) == '*' {
      i, len := 2, |str|;
    } else {
      len := Span(str);
    }
    var rest := pattern[i..];
    assert rest == AfterStar(pattern) && len == Reach(pattern, str);
    if i == |pattern| {
      assert Greedy(rest, str[len..]) == 0;
      return len;
    }
    res := TryLengths(rest, len, after, str);
  }

  method TryLengths(rest: string, reach: nat, after: char, str: string) returns (res: int)
    requires Text(rest) && Text(str) && '|' !in rest && reach <= |str|
    requires after == '*' ==> !TriesReachEnd(rest, str, reach)
    ensures res == Try(rest, str, reach)
    decreases |rest|, 3
  {
    var len := reach;
    res := MatchPrefix(rest, after, str[len..]);
    while res == -1 && len > 0
      invariant len <= reach && res == Greedy(rest, str[len..])
      invariant Try(rest, str, reach) == Try(rest, str, len)
      invariant after == '*' ==> !TriesReachEnd(rest, str, len)
    {
      len := len - 1;
      res := MatchPrefix(rest, after, str[len..]);
    }
    res := if res == -1 then -1 else res + len;
  }
}
