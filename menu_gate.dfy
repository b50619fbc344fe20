/**
 * The menu of the codec as a two-state machine on one flag, "the text is
 * compressed": option "1" compresses, only from the uncompressed state,
 * option "2" decompresses, only from the compressed state, and the flag
 * changes only when the operation run reports success.  Option "3" ends
 * the session; any other option is refused.
 */
module MenuGate {

  /** What the menu does with one option in one state. */
  datatype Action =
    | Compress          // option "1" while the text is not compressed
    | Decompress        // option "2" while the text is compressed
    | RefuseCompress    // option "1" while the text is compressed
    | RefuseDecompress  // option "2" while the text is not compressed
    | Exit              // option "3"
    | Invalid           // any other option

  function Gate(compressed: bool, option: string): Action
  {
    if option == "1" then (if compressed then RefuseCompress else Compress)
    else if option == "2" then (if compressed then Decompress else RefuseDecompress)
    else if option == "3" then Exit
    else Invalid
  }

  /** Whether an action runs one of the two operations. */
  predicate Runs(a: Action)
  {
    a == Compress || a == Decompress
  }

  /**
   * The flag after one option, where `success` is what the operation run
   * (if any) reports.
   */
  function Next(compressed: bool, option: string, success: bool): (r: bool)
    ensures r != compressed <==> Runs(Gate(compressed, option)) && success
    ensures r == compressed || r == (Gate(compressed, option) == Compress)
  {
    match Gate(compressed, option)
    case Compress => success
    case Decompress => !success
    case _ => compressed
  }

  /** Compression runs only from the uncompressed state, decompression only from the compressed one. */
  lemma GateAllows(compressed: bool, option: string)
    ensures Gate(compressed, option) == Compress <==> option == "1" && !compressed
    ensures Gate(compressed, option) == Decompress <==> option == "2" && compressed
    ensures Gate(compressed, option) == Exit <==> option == "3"
    ensures Gate(compressed, option) == Invalid <==> option != "1" && option != "2" && option != "3"
  {
  }

  /** One round of the menu: the option typed and, if an operation runs, whether it succeeds. */
  datatype Round = Round(option: string, success: bool)

  /**
   * The operations that succeed in a session of rounds, in order, up to
   * the first Exit.
   */
  function Successes(compressed: bool, rounds: seq<Round>): seq<Action>
    decreases |rounds|
  {
    if rounds == [] then []
    else
      var a := Gate(compressed, rounds[0].option);
      if a == Exit then []
      else
        var rest := Successes(Next(compressed, rounds[0].option, rounds[0].success), rounds[1..]);
        if Runs(a) && rounds[0].success then [a] + rest else rest
  }

  /** The operation expected as the i-th success of a session starting in the given state. */
  function Expected(compressed: bool, i: nat): Action
  {
    if (i % 2 == 0) != compressed then Compress else Decompress
  }

  /**
   * The successful operations of any session alternate, and the first is
   * a compression when the session starts uncompressed: no text is
   * compressed twice or decompressed twice in a row.
   */
  lemma {:induction false} SuccessesAlternate(compressed: bool, rounds: seq<Round>)
    ensures forall i :: 0 <= i < |Successes(compressed, rounds)| ==>
              Successes(compressed, rounds)[i] == Expected(compressed, i)
    decreases |rounds|
  {
    if rounds != [] && Gate(compressed, rounds[0].option) != Exit {
      var a := Gate(compressed, rounds[0].option);
      var next := Next(compressed, rounds[0].option, rounds[0].success);
      SuccessesAlternate(next, rounds[1..]);
      var rest := Successes(next, rounds[1..]);
      if Runs(a) && rounds[0].success {
        assert next == !compressed;
        assert a == Expected(compressed, 0);
        forall i | 1 <= i < |rest| + 1
          ensures ([a] + rest)[i] == Expected(compressed, i)
        {
          assert ([a] + rest)[i] == rest[i - 1] == Expected(next, i - 1);
        }
      } else {
        assert next == compressed;
      }
    }
  }

  /** The flag after a session, up to the first Exit. */
  function Final(compressed: bool, rounds: seq<Round>): bool
    decreases |rounds|
  {
    if rounds == [] || Gate(compressed, rounds[0].option) == Exit then compressed
    else Final(Next(compressed, rounds[0].option, rounds[0].success), rounds[1..])
  }

  /** The flag at the end of a session counts the successes: set exactly when their number is odd from the uncompressed state. */
  lemma {:induction false} FinalCountsSuccesses(compressed: bool, rounds: seq<Round>)
    ensures Final(compressed, rounds) == ((|Successes(compressed, rounds)| % 2 == 1) != compressed)
    decreases |rounds|
  {
    if rounds != [] && Gate(compressed, rounds[0].option) != Exit {
      FinalCountsSuccesses(Next(compressed, rounds[0].option, rounds[0].success), rounds[1..]);
    }
  }
}
