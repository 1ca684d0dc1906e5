/** The small vocabulary every other module of the model shares. */
module Common {
  datatype Option<+T> = None | Some(value: T)

  datatype Result<+T, +E> = Ok(value: T) | Err(error: E)

  /** No value occurs twice. */
  ghost predicate Distinct<T>(s: seq<T>) {
    forall i, j :: 0 <= i < j < |s| ==> s[i] != s[j]
  }

  /** The values of a sequence. */
  function ToSet<T>(s: seq<T>): set<T> {
    set x | x in s
  }

  /** These numbers, each once, in order. */
  ghost predicate InOrder(at: seq<int>, chosen: set<int>) {
    (forall a, b :: 0 <= a < b < |at| ==> at[a] < at[b]) && (forall i :: i in at <==> i in chosen)
  }

  lemma OneMoreInOrder(at: seq<int>, chosen: set<int>, n: int)
    requires InOrder(at, chosen) && forall i :: i in chosen ==> i < n
    ensures InOrder(at + [n], chosen + {n})
  {
    forall a | 0 <= a < |at| ensures at[a] < n { assert at[a] in at; }
  }
}
