/** What several modules need: an option type and facts about sequences. */
module Common {
  datatype Option<+T> = None | Some(value: T)

  lemma PrefixStep<T>(s: seq<T>, t: nat)
    requires t < |s|
    ensures s[..t + 1] == s[..t] + [s[t]]
  {
  }

  lemma Regroup<T>(a: seq<T>, b: seq<T>, c: seq<T>)
    ensures a + b + c == a + (b + c)
  {
  }

  lemma RegroupFour<T>(a: seq<T>, b: seq<T>, c: seq<T>, d: seq<T>)
    ensures a + b + c + d == a + (b + (c + d)) == a + (b + c + d)
  {
  }
}
