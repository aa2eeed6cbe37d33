/** Reading a stream one byte at a time: a mode, and what each byte lets out. */
module Transducer {
  import opened Bytes

  type Step<!M> = (M, Byte) -> (M, seq<Byte>)

  function Run<M>(step: Step<M>, mode: M, data: seq<Byte>): (M, seq<Byte>)
    decreases |data|
  {
    if data == [] then (mode, [])
    else
      var (next, out) := step(mode, data[0]);
      var (last, more) := Run(step, next, data[1..]);
      (last, out + more)
  }

  /** A stream from the reads it arrived in. */
  function Joined(chunks: seq<seq<Byte>>): seq<Byte> {
    if chunks == [] then [] else chunks[0] + Joined(chunks[1..])
  }

  /** Where the stream is cut does not matter to a byte-at-a-time reader. */
  lemma {:induction false} RunConcat<M>(step: Step<M>, mode: M, a: seq<Byte>, b: seq<Byte>)
    ensures var (middle, first) := Run(step, mode, a);
            var (last, second) := Run(step, middle, b);
            Run(step, mode, a + b) == (last, first + second)
    decreases |a|
  {
    var (middle, first) := Run(step, mode, a);
    var (last, second) := Run(step, middle, b);
    if a == [] {
      assert a + b == b && [] + second == second;
    } else {
      var (next, out) := step(mode, a[0]);
      assert (a + b)[1..] == a[1..] + b;
      RunConcat(step, next, a[1..], b);
      var rest := Run(step, next, a[1..]).1;
      assert out + (rest + second) == (out + rest) + second;
    }
  }

  lemma {:induction false} RunOne<M>(step: Step<M>, mode: M, b: Byte)
    ensures Run(step, mode, [b]) == step(mode, b)
  {
    var (next, out) := step(mode, b);
    assert [b][1..] == [] && out + [] == out;
    assert Run(step, next, []) == (next, []);
  }

  lemma {:induction false} RunSnoc<M>(step: Step<M>, mode: M, data: seq<Byte>, b: Byte)
    ensures var (middle, first) := Run(step, mode, data);
            var (last, second) := step(middle, b);
            Run(step, mode, data + [b]) == (last, first + second)
  {
    RunConcat(step, mode, data, [b]);
    RunOne(step, Run(step, mode, data).0, b);
  }
}
