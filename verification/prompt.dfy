/** The bounded-retry prompt loops (Registration.cpp:96-130 and the two loops of
    Registration.cpp:164-199). Console input is the sequence of whitespace-free
    tokens `cin >>` would read; all four loops share one shape: read a token,
    stop on "exit", stop on a token the loop accepts, otherwise count a failed
    attempt, and give up after `MaxAttempts` attempts. */
module Prompt {
  import opened Text
  import opened Validation
  import opened Store

  const MaxAttempts: nat := 3

  /** The token that cancels any prompt. */
  const ExitToken: string := "exit"

  /** How a prompt loop ends. */
  datatype Answer = Accepted(value: string) | Cancelled | Exhausted

  /** The answer, and how many input tokens the loop consumed. */
  datatype Reply = Reply(answer: Answer, used: nat)

  function Min(a: nat, b: nat): nat {
    if a <= b then a else b
  }

  /** The value the loop variable holds after its `i`-th read (counting from 0).
      Once the input is used up `cin >>` fails and leaves the variable as it
      was: the last token read, or `last` when there was none. */
  function Seen(input: seq<string>, last: string, i: nat): string {
    if i < |input| then input[i] else if |input| > 0 then input[|input| - 1] else last
  }

  /** A token that ends the loop: the cancel word or an accepted token. */
  predicate Decisive(accept: string -> bool, t: string) {
    t == ExitToken || accept(t)
  }

  /** None of the first `n` reads ends the loop. */
  ghost predicate UndecidedBefore(accept: string -> bool, input: seq<string>, last: string, n: nat) {
    forall j: nat :: j < n ==> !Decisive(accept, Seen(input, last, j))
  }

  /** The loop with `left` attempts remaining, `last` being the variable's value
      before the next read. */
  function Ask(accept: string -> bool, input: seq<string>, left: nat, last: string): (r: Reply)
    ensures r.used <= left && r.used <= |input|
    ensures r.answer.Accepted? ==> accept(r.answer.value) && r.answer.value != ExitToken
    decreases left
  {
    if left == 0 then Reply(Exhausted, 0)
    else
      var token := Seen(input, last, 0);
      var step := if |input| > 0 then 1 else 0;
      if token == ExitToken then Reply(Cancelled, step)
      else if accept(token) then Reply(Accepted(token), step)
      else
        var r := Ask(accept, input[step..], left - 1, token);
        Reply(r.answer, r.used + step)
  }

  /** After one read the rest of the loop sees the same values, shifted by one. */
  lemma SeenShift(input: seq<string>, last: string, j: nat)
    ensures var step := if |input| > 0 then 1 else 0;
            Seen(input[step..], Seen(input, last, 0), j) == Seen(input, last, j + 1)
  {
  }

  /** The first `n + 1` reads leave the loop undecided exactly when the first
      read does and the following `n`, seen by the rest of the loop, do too. */
  lemma UndecidedShift(accept: string -> bool, input: seq<string>, last: string, n: nat)
    ensures var step := if |input| > 0 then 1 else 0;
            var token := Seen(input, last, 0);
            UndecidedBefore(accept, input, last, n + 1)
            <==> !Decisive(accept, token) && UndecidedBefore(accept, input[step..], token, n)
  {
    var step := if |input| > 0 then 1 else 0;
    var token := Seen(input, last, 0);
    var rest := input[step..];
    if !Decisive(accept, token) && UndecidedBefore(accept, rest, token, n) {
      forall j: nat | j < n + 1 ensures !Decisive(accept, Seen(input, last, j)) {
        if j > 0 {
          SeenShift(input, last, j - 1);
        }
      }
    }
    if UndecidedBefore(accept, input, last, n + 1) {
      assert !Decisive(accept, Seen(input, last, 0));
      forall j: nat | j < n ensures !Decisive(accept, Seen(rest, token, j)) {
        SeenShift(input, last, j);
      }
    }
  }

  /** The loop runs out of attempts exactly when none of its `left` reads ends
      it, and then it has consumed one token per attempt while tokens last. */
  lemma {:induction false} AskExhausted(accept: string -> bool, input: seq<string>, left: nat, last: string)
    ensures var r := Ask(accept, input, left, last);
            && (r.answer.Exhausted? <==> UndecidedBefore(accept, input, last, left))
            && (r.answer.Exhausted? ==> r.used == Min(left, |input|))
    decreases left
  {
    if left == 0 {
      return;
    }
    var token := Seen(input, last, 0);
    var step := if |input| > 0 then 1 else 0;
    if Decisive(accept, token) {
      assert !UndecidedBefore(accept, input, last, left);
      return;
    }
    AskExhausted(accept, input[step..], left - 1, token);
    UndecidedShift(accept, input, last, left - 1);
  }

  /** A loop that does not run out ends at the first read that is "exit" or
      acceptable, having consumed the tokens up to and including it. */
  lemma {:induction false} AskDecided(accept: string -> bool, input: seq<string>, left: nat, last: string)
    ensures var r := Ask(accept, input, left, last);
            !r.answer.Exhausted? ==>
              exists i: nat :: i < left && UndecidedBefore(accept, input, last, i)
                               && Decisive(accept, Seen(input, last, i))
                               && (r.answer.Cancelled? <==> Seen(input, last, i) == ExitToken)
                               && (r.answer.Accepted? ==> r.answer.value == Seen(input, last, i))
                               && r.used == Min(i + 1, |input|)
    decreases left
  {
    var r := Ask(accept, input, left, last);
    if left == 0 {
      return;
    }
    var token := Seen(input, last, 0);
    var step := if |input| > 0 then 1 else 0;
    if Decisive(accept, token) {
      assert UndecidedBefore(accept, input, last, 0);
      return;
    }
    var rest := input[step..];
    var r' := Ask(accept, rest, left - 1, token);
    AskDecided(accept, rest, left - 1, token);
    if !r.answer.Exhausted? {
      var i: nat :| i < left - 1 && UndecidedBefore(accept, rest, token, i)
                    && Decisive(accept, Seen(rest, token, i))
                    && (r'.answer.Cancelled? <==> Seen(rest, token, i) == ExitToken)
                    && (r'.answer.Accepted? ==> r'.answer.value == Seen(rest, token, i))
                    && r'.used == Min(i + 1, |rest|);
      SeenShift(input, last, i);
      UndecidedShift(accept, input, last, i);
      assert UndecidedBefore(accept, input, last, i + 1);
    }
  }

  /** The loop as a scan of the values read: it is exhausted exactly when none of
      its `left` reads ends it, and otherwise it ends at the first read that
      does: cancelled on "exit", accepted with that token otherwise, having
      consumed the tokens up to and including that read. */
  lemma AskScan(accept: string -> bool, input: seq<string>, left: nat, last: string)
    ensures var r := Ask(accept, input, left, last);
            && (r.answer.Exhausted? <==> UndecidedBefore(accept, input, last, left))
            && (r.answer.Exhausted? ==> r.used == Min(left, |input|))
            && (!r.answer.Exhausted? ==>
                  exists i: nat :: i < left && UndecidedBefore(accept, input, last, i)
                                   && Decisive(accept, Seen(input, last, i))
                                   && (r.answer.Cancelled? <==> Seen(input, last, i) == ExitToken)
                                   && (r.answer.Accepted? ==> r.answer.value == Seen(input, last, i))
                                   && r.used == Min(i + 1, |input|))
  {
    AskExhausted(accept, input, left, last);
    AskDecided(accept, input, left, last);
  }

  /** The tokens left for the next prompt once read `i` ended this one. */
  function After(input: seq<string>, i: nat): (rest: seq<string>)
    ensures |rest| == |input| - Min(i + 1, |input|)
    ensures forall k :: 0 <= k < |rest| ==> rest[k] == input[Min(i + 1, |input|) + k]
  {
    input[Min(i + 1, |input|)..]
  }

  /** When read `i` is the first one that ends the loop, the loop stops there:
      cancelled if it is "exit", accepted with it otherwise, after `i + 1` reads
      (or all the tokens, if fewer remain). */
  lemma AskStopsAt(accept: string -> bool, input: seq<string>, left: nat, last: string, i: nat)
    requires i < left
    requires UndecidedBefore(accept, input, last, i) && Decisive(accept, Seen(input, last, i))
    ensures var r := Ask(accept, input, left, last);
            && r.answer == (if Seen(input, last, i) == ExitToken then Cancelled else Accepted(Seen(input, last, i)))
            && r.used == Min(i + 1, |input|)
  {
    AskScan(accept, input, left, last);
    var r := Ask(accept, input, left, last);
    assert !UndecidedBefore(accept, input, last, left);
    var k: nat :| k < left && UndecidedBefore(accept, input, last, k)
                  && Decisive(accept, Seen(input, last, k))
                  && (r.answer.Cancelled? <==> Seen(input, last, k) == ExitToken)
                  && (r.answer.Accepted? ==> r.answer.value == Seen(input, last, k))
                  && r.used == Min(k + 1, |input|);
    assert k == i;
  }

  /** What the username and password prompts return: the accepted token, or ""
      when the loop was cancelled or ran out of attempts; and the tokens used. */
  datatype Entry = Entry(text: string, used: nat)

  function EntryOf(r: Reply): Entry {
    Entry(if r.answer.Accepted? then r.answer.value else "", r.used)
  }

  /** What `getValidatedUsername` accepts: a well-formed name not yet taken. */
  function NewUsername(users: map<string, string>): string -> bool {
    u => IsValidUsername(u) && UsernameAvailable(users, u)
  }

  /** `getValidatedUsername` (Registration.cpp:96-113). */
  function GetValidatedUsername(users: map<string, string>, input: seq<string>): (e: Entry)
    ensures e.used <= MaxAttempts && e.used <= |input|
    ensures e.text != "" ==> IsValidUsername(e.text) && e.text !in users && e.text != ExitToken
  {
    EntryOf(Ask(NewUsername(users), input, MaxAttempts, ""))
  }

  /** `getValidatedPassword` (Registration.cpp:115-130), with the format rule as a
      parameter so that a stricter rule can be put in its place. */
  function GetPassword(rule: string -> bool, input: seq<string>): (e: Entry)
    ensures e.used <= MaxAttempts && e.used <= |input|
    ensures e.text != "" ==> rule(e.text) && e.text != ExitToken
  {
    EntryOf(Ask(rule, input, MaxAttempts, ""))
  }

  /** `getValidatedPassword` as written: the rule is `isValidPassword`. */
  function GetValidatedPassword(input: seq<string>): (e: Entry)
    ensures e.used <= MaxAttempts && e.used <= |input|
    ensures e.text != "" ==> IsValidPassword(e.text) && e.text != ExitToken
  {
    GetPassword(IsValidPassword, input)
  }

  /** The "" the username prompt returns means exactly that no name was accepted
      in `MaxAttempts` reads: the first read that ends the loop is "exit", or no
      read ends it. A returned name is the first acceptable one read. */
  lemma UsernamePromptScan(users: map<string, string>, input: seq<string>)
    ensures var e := GetValidatedUsername(users, input);
            && (e.text == "" <==>
                  UndecidedBefore(NewUsername(users), input, "", MaxAttempts)
                  || exists i: nat :: i < MaxAttempts && UndecidedBefore(NewUsername(users), input, "", i)
                                      && Seen(input, "", i) == ExitToken)
            && (e.text != "" ==>
                  exists i: nat :: i < MaxAttempts && UndecidedBefore(NewUsername(users), input, "", i)
                                   && Seen(input, "", i) == e.text)
  {
    AskScan(NewUsername(users), input, MaxAttempts, "");
  }

  /** A name already in the store is refused at each of the three attempts. */
  lemma TakenNameRefused(users: map<string, string>, u: string, rest: seq<string>)
    requires u in users && u != ExitToken
    ensures GetValidatedUsername(users, [u, u, u] + rest) == Entry("", 3)
  {
    var input := [u, u, u] + rest;
    assert input[1..] == [u, u] + rest;
    assert input[2..] == [u] + rest;
  }

  /** "exit" cancels a prompt at once, consuming only itself. */
  lemma ExitCancels(accept: string -> bool, input: seq<string>, last: string)
    requires |input| >= 1 && input[0] == ExitToken
    ensures Ask(accept, input, MaxAttempts, last) == Reply(Cancelled, 1)
    ensures GetValidatedUsername(map[], input) == Entry("", 1)
  {
  }

  /** The name "exit" is well formed, yet no prompt ever accepts it, so it can
      never be registered. */
  lemma ExitNeverAccepted(users: map<string, string>, input: seq<string>)
    ensures IsValidUsername(ExitToken)
    ensures GetValidatedUsername(users, input).text != ExitToken
  {
    assert IsLower(ExitToken[0]) && IsLower(ExitToken[1]) && IsLower(ExitToken[2]) && IsLower(ExitToken[3]);
  }
}
