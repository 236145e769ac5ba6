/** One round of guessing in `main`: read lines until a guess equals the
    secret, counting the guesses that parse. The lines are given as the
    results of `trim().parse::<u8>()`, already read, one per line. */
module GuessRound {
  import opened Bytes
  import opened Wrappers

  /** What the game answers to one line. */
  datatype Reply = NotANumber | TooBig | TooSmall | Found(tries: nat)

  /** The answer to one line, `count` being the number of parsed guesses up to
      and including this one: exactly one of three outcomes for a guess. */
  function Respond(secret: u8, input: Option<u8>, count: nat): (reply: Reply)
    ensures reply == NotANumber <==> input.None?
    ensures reply == TooBig <==> input.Some? && input.value > secret
    ensures reply == TooSmall <==> input.Some? && input.value < secret
    ensures reply.Found? <==> input == Some(secret)
    ensures reply.Found? ==> reply.tries == count
  {
    match input
    case None => NotANumber
    case Some(guess) =>
      if guess > secret then TooBig
      else if guess < secret then TooSmall
      else Found(count)
  }

  /** The number of lines in `inputs` that parsed as a guess. */
  function Parsed(inputs: seq<Option<u8>>): nat
  {
    if inputs == [] then 0
    else Parsed(inputs[..|inputs| - 1]) + (if inputs[|inputs| - 1].Some? then 1 else 0)
  }

  lemma ParsedSnoc(inputs: seq<Option<u8>>, i: nat)
    requires i < |inputs|
    ensures Parsed(inputs[..i + 1]) == Parsed(inputs[..i]) + (if inputs[i].Some? then 1 else 0)
  {
    assert inputs[..i + 1][..i] == inputs[..i];
  }

  /** The replies to the first n lines if the round ran on through all of
      them: line k is answered with the count of parsed guesses up to it. */
  function Answers(secret: u8, inputs: seq<Option<u8>>, n: nat): seq<Reply>
    requires n <= |inputs|
  {
    if n == 0 then []
    else Answers(secret, inputs, n - 1) + [Respond(secret, inputs[n - 1], Parsed(inputs[..n]))]
  }

  /** Reply k of the first n answers is the answer to line k. */
  lemma {:induction false} AnswersAt(secret: u8, inputs: seq<Option<u8>>, n: nat, k: nat)
    requires k < n <= |inputs|
    ensures |Answers(secret, inputs, n)| == n
    ensures Answers(secret, inputs, n)[k] == Respond(secret, inputs[k], Parsed(inputs[..k + 1]))
  {
    if k < n - 1 {
      AnswersAt(secret, inputs, n - 1, k);
    } else {
      AnswersLength(secret, inputs, n - 1);
    }
  }

  lemma {:induction false} AnswersLength(secret: u8, inputs: seq<Option<u8>>, n: nat)
    requires n <= |inputs|
    ensures |Answers(secret, inputs, n)| == n
  {
    if n > 0 {
      AnswersLength(secret, inputs, n - 1);
    }
  }

  /** The inner `loop` of `main` over the lines it reads. It answers each line
      in turn, stops right after the first guess equal to the secret, and
      otherwise answers every line. `count` is the number of parsed guesses
      among the lines answered. */
  method PlayRound(secret: u8, inputs: seq<Option<u8>>) returns (replies: seq<Reply>, count: nat)
    ensures |replies| <= |inputs|
    ensures replies == Answers(secret, inputs, |replies|)
    ensures count == Parsed(inputs[..|replies|])
    ensures Some(secret) in inputs <==> |replies| > 0 && replies[|replies| - 1] == Found(count)
    ensures Some(secret) in inputs ==> inputs[|replies| - 1] == Some(secret) && Some(secret) !in inputs[..|replies| - 1]
    ensures Some(secret) !in inputs ==> |replies| == |inputs|
  {
    replies, count := [], 0;
    var i := 0;
    while i < |inputs|
      invariant i <= |inputs| && |replies| == i
      invariant count == Parsed(inputs[..i])
      invariant replies == Answers(secret, inputs, i)
      invariant Some(secret) !in inputs[..i]
    {
      var input := inputs[i];
      ParsedSnoc(inputs, i);
      InputsSnoc(inputs, i, secret);
      // a line that parses is counted before it is compared
      if input.Some? {
        count := count + 1;
      }
      var reply := Respond(secret, input, count);
      replies := replies + [reply];
      i := i + 1;
      if reply.Found? {
        break;
      }
    }
    assert inputs[..|inputs|] == inputs;
  }

  lemma InputsSnoc(inputs: seq<Option<u8>>, i: nat, secret: u8)
    requires i < |inputs| && Some(secret) !in inputs[..i]
    ensures inputs[i] != Some(secret) ==> Some(secret) !in inputs[..i + 1]
  {
  }
}
