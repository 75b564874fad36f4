/** The concrete cases of test_utils.py, stated about the model. */
module TestUtils {
  import opened Wrappers
  import opened Utils

  /** The greeting cases, including the empty name and an explicit `None`. */
  lemma GreetUserExamples()
    ensures GreetUser("Alice") == "Hello, Alice!"
    ensures GreetUser("Bob", Some("Hi")) == "Hi, Bob!"
    ensures GreetUser("") == "Hello, !"
    ensures GreetUser("Charlie", None) == "Hello, Charlie!"
  {
  }

  /** The summation cases whose values are exact. */
  lemma SumExamples()
    ensures Sum([1.0, 2.0, 3.0, 4.0, 5.0]) == 15.0
    ensures Sum([-1.0, -2.0, -3.0]) == -6.0
    ensures Sum([1.0, -2.0, 3.0, -4.0]) == -2.0
    ensures Sum([]) == 0.0
    ensures Sum([42.5]) == 42.5
  {
  }

  /** The integration case: the name is found in the greeting, and the sample numbers add to 15. */
  lemma IntegrationExample()
    ensures Contains(GreetUser("Test User"), "Test User")
    ensures Sum([1.0, 2.0, 3.0, 4.0, 5.0]) == 15.0
  {
    GreetUserContainsName("Test User", None);
    SumExamples();
  }

  /** The accumulator loop yields the tested totals. */
  method CalculateSumExamples() returns (totals: seq<real>)
    ensures totals == [15.0, -6.0, -2.0, 0.0, 42.5]
  {
    var a := CalculateSum([1.0, 2.0, 3.0, 4.0, 5.0]);
    var b := CalculateSum([-1.0, -2.0, -3.0]);
    var c := CalculateSum([1.0, -2.0, 3.0, -4.0]);
    var d := CalculateSum([]);
    var e := CalculateSum([42.5]);
    SumExamples();
    totals := [a, b, c, d, e];
  }
}
