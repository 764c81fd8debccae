/** A phase of stores into one buffer, issued by independent work-items in some order. */
module Scatter {

  /** One store `buf[index] = value`. */
  datatype Write = Write(index: nat, value: real)

  predicate InRange(ws: seq<Write>, len: nat)
  {
    forall k :: 0 <= k < |ws| ==> ws[k].index < len
  }

  /** No two stores of the phase target the same position (the phase is race-free). */
  predicate Distinct(ws: seq<Write>)
  {
    forall p, q :: 0 <= p < q < |ws| ==> ws[p].index != ws[q].index
  }

  /** The buffer after performing the stores of `ws` one after the other, first to last. */
  function Apply(buf: seq<real>, ws: seq<Write>): (r: seq<real>)
    requires InRange(ws, |buf|)
    ensures |r| == |buf|
    decreases |ws|
  {
    if |ws| == 0 then buf else Apply(buf[ws[0].index := ws[0].value], ws[1..])
  }

  /** A position no store targets keeps its content. */
  lemma {:induction false} ApplyUntouched(buf: seq<real>, ws: seq<Write>, i: nat)
    requires InRange(ws, |buf|)
    requires i < |buf|
    requires forall k :: 0 <= k < |ws| ==> ws[k].index != i
    ensures Apply(buf, ws)[i] == buf[i]
    decreases |ws|
  {
    if |ws| > 0 {
      var next := buf[ws[0].index := ws[0].value];
      assert InRange(ws[1..], |next|);
      assert forall k :: 0 <= k < |ws[1..]| ==> ws[1..][k].index != i by {
        forall k | 0 <= k < |ws[1..]| ensures ws[1..][k].index != i {
          assert ws[1..][k] == ws[k + 1];
        }
      }
      ApplyUntouched(next, ws[1..], i);
    }
  }

  /** In a race-free phase every store survives: whatever the order, the targeted position ends up
      holding the value of the one store that targets it. */
  lemma {:induction false} ApplyWritten(buf: seq<real>, ws: seq<Write>, k: nat)
    requires InRange(ws, |buf|)
    requires Distinct(ws)
    requires k < |ws|
    ensures Apply(buf, ws)[ws[k].index] == ws[k].value
    decreases |ws|
  {
    var next := buf[ws[0].index := ws[0].value];
    var rest := ws[1..];
    assert InRange(rest, |next|);
    if k == 0 {
      forall q | 0 <= q < |rest| ensures rest[q].index != ws[0].index {
        assert rest[q] == ws[q + 1];
      }
      ApplyUntouched(next, rest, ws[0].index);
    } else {
      assert Distinct(rest) by {
        forall p, q | 0 <= p < q < |rest| ensures rest[p].index != rest[q].index {
          assert rest[p] == ws[p + 1] && rest[q] == ws[q + 1];
        }
      }
      assert rest[k - 1] == ws[k];
      ApplyWritten(next, rest, k - 1);
    }
  }
}
