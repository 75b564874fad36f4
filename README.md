# Greeting and summation utilities

A Dafny model of the two pure functions in `utils.py`.

- `greet_user(name, greeting=None)` builds `"<greeting>, <name>!"`. It replaces the greeting with `"Hello"` only when it is `None`. An empty greeting is kept as it is, because the test is `is None`, not falsiness.
- `calculate_sum(numbers)` returns the builtin `sum(numbers)`. That adds the numbers left to right, starting from 0.

Layout:

- `wrappers.dfy` (module `Wrappers`) holds the `Option` datatype used for the optional greeting.
- `utils.dfy` (module `Utils`) models `utils.py`.
  - `GreetUser` keeps Python's default argument as a Dafny default parameter, `greeting: Option<string> := None`.
  - `IsGreeting` and `Contains` are reference definitions: the position-by-position reading of a greeting, and Python's substring `in`.
  - `Sum` is the recursive specification of the sum.
  - `CalculateSum` is the accumulator loop of the builtin `sum`, proved equal to `Sum`.
- `test_utils.dfy` (module `TestUtils`) states the concrete cases of `test_utils.py` about the model.

Numbers are Dafny's exact `real`. Python integers are unbounded and embed exactly, so every integer-valued test holds as written, and so does the `42.5` test.

## Model

| member | source | states |
|---|---|---|
| Utils.GreetUser | utils.py:10-29 | result length is \|greeting or "Hello"\| + \|name\| + 3; it ends with `!`; it starts with the given greeting, or with "Hello" when the greeting is absent |
| Utils.GreetUserCharacterized | utils.py:29 | a string equals `greet_user(name, word)` if and only if it is `word`, then `", "`, then `name`, then `!`, position by position |
| Utils.GreetUserShape | utils.py:27-29 | for every name and optional greeting, the result has that shape, with the word being the greeting or "Hello" when absent |
| Utils.GreetUserDefault | utils.py:27-29 | with no greeting the result is `"Hello, " + name + "!"`, the same as passing "Hello" explicitly |
| Utils.GreetUserVerbatim | utils.py:29 | a given greeting and the name are used verbatim: the result is `word + ", " + name + "!"` |
| Utils.GreetUserInjective | utils.py:29 | given the word's length, the result determines both the word and the name |
| Utils.GreetUserAmbiguous | utils.py:29 | without that length the result is ambiguous: `("c", "a, b")` and `("b, c", "a")` give the same string |
| Utils.DefaultsExactlyWhenAbsent | utils.py:27-28 | the result equals the defaulted one if and only if the greeting is `None` or exactly "Hello"; an empty greeting is not defaulted |
| Utils.GreetUserNameBeforeBang | utils.py:29 | the name is exactly the slice of the result that ends just before the final `!` |
| Utils.GreetUserContainsName | utils.py:29 | the name occurs as a contiguous substring of the result (Python's `name in result`) |
| Utils.SumEmpty | utils.py:45-46 | the sum of the empty sequence is 0 |
| Utils.SumSingleton | utils.py:48 | the sum of a one-element sequence is that element |
| Utils.SumConcat | utils.py:48 | the sum distributes over concatenation: `Sum(a + b) == Sum(a) + Sum(b)` |
| Utils.SumPermutation | utils.py:48 | two sequences with the same elements, in any order, have the same sum |
| Utils.CalculateSum | utils.py:32-48 | the left-to-right accumulator starting from 0 returns exactly `Sum(numbers)` |
| TestUtils.GreetUserExamples | test_utils.py:14-32 | "Hello, Alice!", "Hi, Bob!", "Hello, !" for the empty name, "Hello, Charlie!" for an explicit `None` |
| TestUtils.SumExamples | test_utils.py:38-61 | `[1..5]` sums to 15, `[-1,-2,-3]` to -6, `[1,-2,3,-4]` to -2, `[]` to 0, `[42.5]` to 42.5 |
| TestUtils.IntegrationExample | test_utils.py:75-81 | "Test User" occurs in its greeting, and the sample numbers sum to 15 |
| TestUtils.CalculateSumExamples | test_utils.py:38-61 | the accumulator loop returns 15, -6, -2, 0 and 42.5 on the tested inputs |

## Left out

- `main()` and the `__main__` guard (utils.py:51-58) only print to the console, so they are not modelled.
- Floating-point rounding is not modelled: numbers are exact reals. Under this model `1.1 + 2.2 + 3.3` is exactly `6.6`, while IEEE-754 doubles give only an approximation. The approximate-equality test at test_utils.py:63-66 is not stated.
- Python's difference between an `int` and a `float` result is not modelled. Under `==` it cannot be seen, even though the docstring (utils.py:44-46) shows `6.0` and `0.0`.
- Lists holding non-numbers are not modelled. Python would raise `TypeError` for them, and here the element type is fixed as `real`.
- The pytest fixture and test classes of test_utils.py are not modelled. Their cases appear only as the lemmas of `TestUtils`.
