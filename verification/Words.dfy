/** Values as the words they are copied by. */
module Words {
  type Word = nat
  type Value = seq<Word>

  function Keys(words: nat): (r: set<nat>)
    ensures forall k: nat :: k in r <==> k < words
  {
    if words == 0 then {} else Keys(words - 1) + {words - 1}
  }

  /** The first words of a value, as copied so far. */
  function Prefix(data: Value, n: nat): (m: map<nat, Word>)
    requires n <= |data|
    ensures m.Keys == Keys(n)
  {
    map k: nat | k in Keys(n) :: data[k]
  }

  function Assemble(words: nat, temp: map<nat, Word>): Value
    requires temp.Keys == Keys(words)
  {
    seq(words, k requires 0 <= k < words => temp[k])
  }

  function Map<A, B>(f: A -> B, s: seq<A>): (t: seq<B>)
    ensures |t| == |s|
    ensures forall i | 0 <= i < |s| :: t[i] == f(s[i])
  {
    seq(|s|, i requires 0 <= i < |s| => f(s[i]))
  }

  /** Decoding a part of an encoded sequence gives that part. */
  lemma MapBack<A, B>(encode: A -> B, decode: B -> A, s: seq<A>, from: nat, to: nat)
    requires from <= to <= |s|
    requires forall i | 0 <= i < |s| :: decode(encode(s[i])) == s[i]
    ensures Map(decode, Map(encode, s)[from..to]) == s[from..to]
  {
  }

  lemma Pairwise<A, B>(r: (A, B) -> bool, a: seq<A>, b: seq<B>, c: seq<A>, d: seq<B>)
    requires |a| == |b| && |c| == |d|
    requires (forall i | 0 <= i < |a| :: r(a[i], b[i])) && (forall i | 0 <= i < |c| :: r(c[i], d[i]))
    ensures forall i | 0 <= i < |a + c| :: r((a + c)[i], (b + d)[i])
  {
  }
}
