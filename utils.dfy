/**
 * The two utility functions of utils.py: a greeting formatter with an
 * optional salutation, and the sum of a sequence of numbers.
 */
module Utils {
  import opened Wrappers

  // ---------------------------------------------------------------------
  // greet_user
  // ---------------------------------------------------------------------

  /** The salutation used when the caller passes none. */
  const DefaultGreeting: string := "Hello"

  /**
   * `"<greeting>, <name>!"`, with an absent greeting replaced by "Hello".
   * Only an absent greeting is replaced: an empty one is used as it is.
   */
  function GreetUser(name: string, greeting: Option<string> := None): (r: string)
    ensures |r| == |greeting.GetOr(DefaultGreeting)| + |name| + 3
    ensures r[|r| - 1] == '!'
    ensures greeting.None? ==> r[..|DefaultGreeting|] == DefaultGreeting
    ensures greeting.Some? ==> r[..|greeting.value|] == greeting.value
  {
    var word := greeting.GetOr(DefaultGreeting);
    word + ", " + name + "!"
  }

  /**
   * Reference reading of a greeting, position by position: `r` is `word`,
   * then a comma and a space, then `name`, then a closing `!`.
   */
  predicate IsGreeting(r: string, word: string, name: string) {
    && |r| == |word| + |name| + 3
    && r[..|word|] == word
    && r[|word|] == ','
    && r[|word| + 1] == ' '
    && r[|word| + 2..|r| - 1] == name
    && r[|r| - 1] == '!'
  }

  /** A string is the greeting of `name` with `word` exactly when it reads as one. */
  lemma GreetUserCharacterized(r: string, word: string, name: string)
    ensures r == GreetUser(name, Some(word)) <==> IsGreeting(r, word, name)
  {
  }

  /** Whatever the arguments, the result reads as a greeting of `name`. */
  lemma GreetUserShape(name: string, greeting: Option<string>)
    ensures IsGreeting(GreetUser(name, greeting), greeting.GetOr(DefaultGreeting), name)
    ensures greeting.None? ==> IsGreeting(GreetUser(name, greeting), "Hello", name)
  {
  }

  /** With no greeting the result is `"Hello, " + name + "!"`. */
  lemma GreetUserDefault(name: string)
    ensures GreetUser(name) == "Hello, " + name + "!"
    ensures GreetUser(name, None) == GreetUser(name, Some("Hello"))
  {
  }

  /** A given greeting and the name appear verbatim, with nothing trimmed or changed. */
  lemma GreetUserVerbatim(name: string, word: string)
    ensures GreetUser(name, Some(word)) == word + ", " + name + "!"
  {
  }

  /**
   * Once the length of the greeting word is known, the result determines
   * both the word and the name.
   */
  lemma GreetUserInjective(name1: string, word1: string, name2: string, word2: string)
    requires |word1| == |word2|
    requires GreetUser(name1, Some(word1)) == GreetUser(name2, Some(word2))
    ensures word1 == word2 && name1 == name2
  {
    var r := GreetUser(name1, Some(word1));
    GreetUserCharacterized(r, word1, name1);
    GreetUserCharacterized(r, word2, name2);
  }

  /**
   * Without the length of the word the result is ambiguous: the word and
   * the name may themselves contain ", ".
   */
  lemma GreetUserAmbiguous()
    ensures GreetUser("c", Some("a, b")) == GreetUser("b, c", Some("a"))
  {
  }

  /**
   * The default is substituted exactly when the greeting is absent: the
   * result equals the defaulted one only for `None` or an explicit "Hello".
   */
  lemma DefaultsExactlyWhenAbsent(name: string, greeting: Option<string>)
    ensures GreetUser(name, greeting) == GreetUser(name) <==> greeting == None || greeting == Some(DefaultGreeting)
  {
  }

  /** The name is the slice of the result that ends just before the final `!`. */
  lemma GreetUserNameBeforeBang(name: string, greeting: Option<string>)
    ensures var r := GreetUser(name, greeting);
      r[|r| - 1 - |name|..|r| - 1] == name
  {
  }

  /** Python's `sub in s` for strings: `sub` occurs in `s` as a contiguous run. */
  predicate Contains(s: string, sub: string)
    decreases |s|
  {
    |sub| <= |s| && (s[..|sub|] == sub || (0 < |s| && Contains(s[1..], sub)))
  }

  /** A run of `s` starting at `i` and equal to `sub` is an occurrence. */
  lemma {:induction false} ContainsAt(s: string, sub: string, i: nat)
    requires i + |sub| <= |s|
    requires s[i..i + |sub|] == sub
    ensures Contains(s, sub)
    decreases i
  {
    if i > 0 {
      assert s[1..][i - 1..i - 1 + |sub|] == s[i..i + |sub|];
      ContainsAt(s[1..], sub, i - 1);
    }
  }

  /** The name always occurs in the greeting: `name in greet_user(name, ...)`. */
  lemma GreetUserContainsName(name: string, greeting: Option<string>)
    ensures Contains(GreetUser(name, greeting), name)
  {
    var r := GreetUser(name, greeting);
    GreetUserNameBeforeBang(name, greeting);
    ContainsAt(r, name, |r| - 1 - |name|);
  }

  // ---------------------------------------------------------------------
  // calculate_sum
  // ---------------------------------------------------------------------

  /** The exact sum of `s`: 0 for the empty sequence, else head plus the sum of the tail. */
  function Sum(s: seq<real>): real {
    if s == [] then 0.0 else s[0] + Sum(s[1..])
  }

  /** The sum of nothing is 0. */
  lemma SumEmpty()
    ensures Sum([]) == 0.0
  {
  }

  /** The sum of one number is that number. */
  lemma SumSingleton(x: real)
    ensures Sum([x]) == x
  {
  }

  /** The sum distributes over concatenation. */
  lemma {:induction false} SumConcat(a: seq<real>, b: seq<real>)
    ensures Sum(a + b) == Sum(a) + Sum(b)
  {
    if a == [] {
      assert a + b == b;
    } else {
      assert (a + b)[1..] == a[1..] + b;
      SumConcat(a[1..], b);
    }
  }

  /** Adding the numbers in any order gives the same sum. */
  lemma {:induction false} SumPermutation(a: seq<real>, b: seq<real>)
    requires multiset(a) == multiset(b)
    ensures Sum(a) == Sum(b)
    decreases |a|
  {
    if a == [] {
      assert |b| == |multiset(b)| == 0;
    } else {
      assert a[0] in multiset(a);
      assert a[0] in b;
      var j :| 0 <= j < |b| && b[j] == a[0];
      var rest := b[..j] + b[j + 1..];
      assert b == b[..j] + [b[j]] + b[j + 1..];
      assert a == [a[0]] + a[1..];
      SumConcat(b[..j] + [b[j]], b[j + 1..]);
      SumConcat(b[..j], [b[j]]);
      SumConcat(b[..j], b[j + 1..]);
      calc {
        multiset(a[1..]) + multiset{a[0]};
        multiset(a);
        multiset(b);
        multiset(b[..j]) + multiset{b[j]} + multiset(b[j + 1..]);
        multiset(rest) + multiset{a[0]};
      }
      assert multiset(a[1..]) == multiset(a[1..]) + multiset{a[0]} - multiset{a[0]};
      assert multiset(rest) == multiset(rest) + multiset{a[0]} - multiset{a[0]};
      SumPermutation(a[1..], rest);
    }
  }

  /**
   * calculate_sum: the builtin `sum`, which starts from 0 and adds the
   * numbers one at a time from left to right.
   */
  method CalculateSum(numbers: seq<real>) returns (total: real)
    ensures total == Sum(numbers)
  {
    total := 0.0;
    for i := 0 to |numbers|
      invariant total == Sum(numbers[..i])
    {
      assert numbers[..i + 1] == numbers[..i] + [numbers[i]];
      SumConcat(numbers[..i], [numbers[i]]);
      total := total + numbers[i];
    }
    assert numbers[..|numbers|] == numbers;
  }
}
