/** The codes by which sessions are found (src/server/SessionsManager.cpp): how many there are. */
module SessionCodes {
  import opened Bytes

  /** The numbers at the end of a code run from 0 to this one. */
  const MAX_NUMBER: nat := 100

  const CODES_PER_PAIR: nat := 101

  function Code(adjective: string, noun: string, number: nat): string {
    adjective + "-" + noun + "-" + Decimal(number)
  }

  /**
    A code is the adjective, the noun and the number, in this order and with a dash between neighbours; its
    last field is read back as the number and has no leading zero.
  */
  lemma CodeReads(a: string, n: string, k: nat)
    ensures var code, at := Code(a, n, k), |a| + |n| + 2;
            && at < |code| && code[..|a|] == a && code[|a|] == '-' && code[|a| + 1..at - 1] == n && code[at - 1] == '-'
            && AllDigits(code[at..]) && ReadDecimal(code[at..]) == k && (k > 0 ==> code[at] != '0')
            && (k == 0 ==> |code| == at + 1)
  {
    DecimalReads(k);
    assert Code(a, n, k)[|a| + |n| + 2..] == Decimal(k);
  }

  /** A string is cut at its last dash in one way only. */
  lemma LastDash(a: string, b: string, a': string, b': string)
    requires a + "-" + b == a' + "-" + b' && '-' !in b && '-' !in b'
    ensures a == a' && b == b'
  {
    var s := a + "-" + b;
    DashAt(a, b);
    DashAt(a', b');
    assert a == s[..|a|] && a' == s[..|a'|];
    assert b == s[|a| + 1..] && b' == s[|a'| + 1..];
  }

  lemma DashAt(a: string, b: string)
    requires '-' !in b
    ensures var s := a + "-" + b;
            s[|a|] == '-' && forall i :: |a| < i < |s| ==> s[i] != '-'
  {
    var s := a + "-" + b;
    forall i | |a| < i < |s| ensures s[i] != '-' {
      assert s[i] == b[i - |a| - 1];
    }
  }

  /** Codes are unambiguous although adjectives may contain dashes, as long as no noun does. */
  lemma CodeInjective(a: string, n: string, k: nat, a': string, n': string, k': nat)
    requires '-' !in n && '-' !in n' && Code(a, n, k) == Code(a', n', k')
    ensures a == a' && n == n' && k == k'
  {
    LastDash(a + "-" + n, Decimal(k), a' + "-" + n', Decimal(k'));
    LastDash(a, n, a', n');
    DecimalInjective(k, k');
  }

  predicate Dashless(nouns: set<string>) {
    forall n :: n in nouns ==> '-' !in n
  }

  /** All codes that can be drawn. */
  ghost function Codes(adjectives: set<string>, nouns: set<string>): set<string> {
    set a, n, k | a in adjectives && n in nouns && 0 <= k <= MAX_NUMBER :: Code(a, n, k)
  }

  ghost function Numbered(a: string, n: string, m: nat): set<string> {
    set k | 0 <= k < m :: Code(a, n, k)
  }

  lemma {:induction false} CountNumbered(a: string, n: string, m: nat)
    requires '-' !in n
    ensures |Numbered(a, n, m)| == m
  {
    if m == 0 {
      assert Numbered(a, n, m) == {};
    } else {
      CountNumbered(a, n, m - 1);
      var last := Code(a, n, m - 1);
      assert Numbered(a, n, m) == Numbered(a, n, m - 1) + {last};
      if last in Numbered(a, n, m - 1) {
        var k :| 0 <= k < m - 1 && Code(a, n, k) == last;
        CodeInjective(a, n, k, a, n, m - 1);
      }
    }
  }

  lemma {:induction false} CountForAdjective(a: string, nouns: set<string>)
    requires Dashless(nouns)
    ensures |Codes({a}, nouns)| == |nouns| * CODES_PER_PAIR
    decreases nouns
  {
    if nouns == {} {
      assert Codes({a}, nouns) == {};
    } else {
      var n :| n in nouns;
      var rest := nouns - {n};
      CountForAdjective(a, rest);
      CountNumbered(a, n, CODES_PER_PAIR);
      OneNoun(a, n, rest);
      assert nouns == rest + {n};
      hide Codes, Numbered;
    }
  }

  lemma OneNoun(a: string, n: string, rest: set<string>)
    requires Dashless(rest + {n}) && n !in rest
    ensures Codes({a}, rest + {n}) == Numbered(a, n, CODES_PER_PAIR) + Codes({a}, rest)
    ensures Numbered(a, n, CODES_PER_PAIR) !! Codes({a}, rest)
  {
    forall c | c in Numbered(a, n, CODES_PER_PAIR) && c in Codes({a}, rest) ensures false {
      var k :| 0 <= k < CODES_PER_PAIR && c == Code(a, n, k);
      var n', k' :| n' in rest && 0 <= k' <= MAX_NUMBER && c == Code(a, n', k');
      CodeInjective(a, n, k, a, n', k');
    }
    hide Code, Dashless;
    assert forall c :: c in Codes({a}, rest + {n}) <==> c in Numbered(a, n, CODES_PER_PAIR) || c in Codes({a}, rest);
  }

  /** There are exactly 101 codes for every pair of an adjective and a noun. */
  lemma {:induction false} CountCodes(adjectives: set<string>, nouns: set<string>)
    requires Dashless(nouns)
    ensures |Codes(adjectives, nouns)| == |adjectives| * (|nouns| * CODES_PER_PAIR) && CODES_PER_PAIR == 101
    decreases adjectives
  {
    hide Codes, Dashless;
    if adjectives == {} {
      NoCodes(nouns);
    } else {
      var a :| a in adjectives;
      var rest, each := adjectives - {a}, |nouns| * CODES_PER_PAIR;
      CountCodes(rest, nouns);
      CountForAdjective(a, nouns);
      OneAdjective(a, rest, nouns);
      assert adjectives == rest + {a};
      Distribute(|rest|, each);
    }
  }

  lemma NoCodes(nouns: set<string>)
    ensures Codes({}, nouns) == {}
  {
  }

  lemma OneAdjective(a: string, rest: set<string>, nouns: set<string>)
    requires Dashless(nouns) && a !in rest
    ensures Codes(rest + {a}, nouns) == Codes({a}, nouns) + Codes(rest, nouns)
    ensures Codes({a}, nouns) !! Codes(rest, nouns)
  {
    forall c | c in Codes({a}, nouns) && c in Codes(rest, nouns) ensures false {
      var n, k :| n in nouns && 0 <= k <= MAX_NUMBER && c == Code(a, n, k);
      var a', n', k' :| a' in rest && n' in nouns && 0 <= k' <= MAX_NUMBER && c == Code(a', n', k');
      CodeInjective(a, n, k, a', n', k');
    }
    hide Code, Dashless;
    assert forall c :: c in Codes(rest + {a}, nouns) <==> c in Codes({a}, nouns) || c in Codes(rest, nouns);
  }

  lemma Distribute(m: nat, x: nat)
    ensures (m + 1) * x == m * x + x
  {
  }

  lemma {:induction false} SubsetCount<T>(a: set<T>, b: set<T>)
    requires a <= b
    ensures |a| <= |b| && (|a| == |b| ==> a == b)
    decreases a
  {
    if a != {} {
      var x :| x in a;
      SubsetCount(a - {x}, b - {x});
      assert b == b - {x} + {x};
    }
  }

  /** A free code is left exactly as long as fewer than all codes are in use; there are never more. */
  lemma FreeCodeExactly(used: set<string>, adjectives: set<string>, nouns: set<string>)
    requires Dashless(nouns) && used <= Codes(adjectives, nouns)
    ensures |used| <= |adjectives| * (|nouns| * CODES_PER_PAIR)
    ensures (exists c :: c in Codes(adjectives, nouns) && c !in used) <==>
            |used| < |adjectives| * (|nouns| * CODES_PER_PAIR)
  {
    var all := Codes(adjectives, nouns);
    CountCodes(adjectives, nouns);
    SubsetCount(used, all);
    hide Codes;
    if |used| < |all| {
      if all <= used {
        SubsetCount(all, used);
      }
      var c :| c in all && c !in used;
    } else {
      assert used == all;
    }
  }
}
