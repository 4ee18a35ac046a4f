/** Result types shared by all modules. */
module Std {
  datatype Option<+T> = None | Some(value: T)

  datatype Result<+T> = Ok(value: T) | Err(error: Error)

  /** The error kinds of src/error.rs that the modelled code can return. */
  datatype Error = Io | Corrupt | InvalidFormat | InvalidArgument | Conflict
}

/** Facts about sequences that the verifier does not find by itself. */
module Seqs {
  lemma Assoc<T>(a: seq<T>, b: seq<T>, c: seq<T>)
    ensures a + b + c == a + (b + c)
  {
  }

  lemma Regroup<T>(a: seq<T>, b: seq<T>, c: seq<T>, d: seq<T>)
    ensures a + (b + (c + d)) == a + b + c + d
  {
  }

  lemma TakeNext<T>(s: seq<T>, i: nat)
    requires i <= |s|
    ensures if i < |s| then s[..i + 1] == s[..i] + [s[i]] else s[..i] == s
  {
  }

  lemma InSnoc<T>(a: seq<T>, x: T, y: T)
    ensures y in a + [x] <==> y in a || y == x
  {
  }
}
