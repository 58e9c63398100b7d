/** The tokenizer of shell.cpp: `split_string` cuts a line at one delimiter
    character, dropping the empty pieces that runs of delimiters, and leading
    or trailing delimiters, would otherwise produce. It is used twice: on `|`
    to find the pipeline stages and on ` ` to find each stage's arguments. */
module Tokenizer {

  datatype Option<T> = None | Some(value: T)

  /** The position of the first `d` in `s`, if there is one. */
  function IndexOf(s: string, d: char): (r: Option<nat>)
    ensures r.None? <==> d !in s
    ensures r.Some? ==> r.value < |s| && s[r.value] == d && d !in s[..r.value]
  {
    if s == [] then None
    else if s[0] == d then Some(0)
    else
      match IndexOf(s[1..], d)
      case None => None
      case Some(k) =>
        assert s[..k + 1] == [s[0]] + s[1..][..k];
        Some(k + 1)
  }

  /** The first occurrence is the only position with a `d` and none before it. */
  lemma IndexOfUnique(s: string, d: char, k: nat)
    requires k < |s| && s[k] == d && d !in s[..k]
    ensures IndexOf(s, d) == Some(k)
  {
    assert forall i | 0 <= i < k :: s[i] != d by {
      forall i | 0 <= i < k ensures s[i] != d { assert s[..k][i] == s[i]; }
    }
    var r := IndexOf(s, d);
    assert r.Some? by { assert s[k] in s; }
    var j := r.value;
    assert forall i | 0 <= i < j :: s[i] != d by {
      forall i | 0 <= i < j ensures s[i] != d { assert s[..j][i] == s[i]; }
    }
  }

  /** `std::string::find(d, pos)`: the first position at or after `pos`
      that holds `d`; `None` stands for `npos`, which is also what a start
      position past the end yields. */
  function Find(s: string, d: char, pos: nat): (r: Option<nat>)
    ensures r.None? <==> (pos >= |s| || d !in s[pos..])
    ensures r.Some? ==> pos <= r.value < |s| && s[r.value] == d && d !in s[pos..r.value]
  {
    if pos >= |s| then None
    else
      match IndexOf(s[pos..], d)
      case None => None
      case Some(k) =>
        assert s[pos..pos + k] == s[pos..][..k];
        Some(pos + k)
  }

  /** What `split_string` may ever emit: a non-empty run free of the delimiter. */
  predicate IsToken(w: string, d: char)
  {
    w != [] && d !in w
  }

  /** The tokens of `s` for delimiter `d`, left to right. Cutting at the first
      delimiter keeps the piece before it only when it is non-empty; a string
      without a delimiter is one token unless it is empty. */
  function Split(s: string, d: char): seq<string>
    decreases |s|
  {
    match IndexOf(s, d)
    case None => if s == [] then [] else [s]
    case Some(k) => (if k == 0 then [] else [s[..k]]) + Split(s[k + 1..], d)
  }

  /** There are no tokens exactly when every character is the delimiter. */
  lemma {:induction false} SplitAllDelimiters(s: string, d: char)
    ensures Split(s, d) == [] <==> forall i | 0 <= i < |s| :: s[i] == d
    decreases |s|
  {
    match IndexOf(s, d)
    case None =>
    case Some(k) =>
      if k == 0 {
        SplitAllDelimiters(s[1..], d);
        assert forall i | 0 <= i < |s| - 1 :: s[1..][i] == s[i + 1];
      }
  }

  /** Every token is non-empty, free of the delimiter, and made of characters
      of the input. */
  lemma {:induction false} SplitTokens(s: string, d: char)
    ensures forall t | t in Split(s, d) :: IsToken(t, d) && forall c | c in t :: c in s
    decreases |s|
  {
    match IndexOf(s, d)
    case None =>
    case Some(k) =>
      SplitTokens(s[k + 1..], d);
      assert forall c | c in s[k + 1..] :: c in s;
      assert forall c | c in s[..k] :: c in s;
  }

  /** `split_string` (shell.cpp): advances `pos` past each delimiter found,
      pushing the text in between when it is non-empty, and the rest of the
      string once no delimiter is left. */
  method SplitString(str: string, delimiter: char) returns (retval: seq<string>)
    ensures retval == Split(str, delimiter)
  {
    retval := [];
    var pos: nat := 0;
    while pos < |str|
      invariant pos <= |str|
      invariant retval + Split(str[pos..], delimiter) == Split(str, delimiter)
      decreases |str| - pos
    {
      var found := Find(str, delimiter, pos);
      if found.None? {
        SplitRest(str, delimiter, pos, retval);
        retval := retval + [str[pos..]];
        break;
      }
      var f := found.value;
      SplitAdvance(str, delimiter, pos, f, retval);
      ghost var rest := Split(str[f + 1..], delimiter);
      if f != pos {
        retval := retval + [str[pos..f]];
      }
      assert retval + rest == Split(str, delimiter);
      pos := f + 1;
      assert str[pos..] == str[f + 1..];
    }
  }

  /** When no delimiter is left after `pos`, the rest of the string is the
      last token. */
  lemma SplitRest(s: string, d: char, pos: nat, done: seq<string>)
    requires pos < |s| && d !in s[pos..]
    requires done + Split(s[pos..], d) == Split(s, d)
    ensures done + [s[pos..]] == Split(s, d)
  {
    SplitWord(s[pos..], d);
  }

  /** The loop invariant of `split_string` carried past the delimiter at `f`:
      the text before it is pushed exactly when it is non-empty. */
  lemma SplitAdvance(s: string, d: char, pos: nat, f: nat, done: seq<string>)
    requires pos <= f < |s| && s[f] == d && d !in s[pos..f]
    requires done + Split(s[pos..], d) == Split(s, d)
    ensures f == pos ==> done + Split(s[f + 1..], d) == Split(s, d)
    ensures f != pos ==> (done + [s[pos..f]]) + Split(s[f + 1..], d) == Split(s, d)
  {
    SplitAtDelimiter(s, d, pos, f);
    if f != pos {
      assert (done + [s[pos..f]]) + Split(s[f + 1..], d) == done + ([s[pos..f]] + Split(s[f + 1..], d));
    } else {
      assert [] + Split(s[f + 1..], d) == Split(s[f + 1..], d);
    }
  }

  /** One step of `split_string`: the tokens from `pos` on are the text up to
      the delimiter at `f`, when non-empty, then the tokens after it. */
  lemma SplitAtDelimiter(s: string, d: char, pos: nat, f: nat)
    requires pos <= f < |s| && s[f] == d && d !in s[pos..f]
    ensures Split(s[pos..], d) == (if f == pos then [] else [s[pos..f]]) + Split(s[f + 1..], d)
  {
    assert s[pos..] == s[pos..f] + [d] + s[f + 1..];
    SplitConcat(s[pos..f], s[f + 1..], d);
    if f != pos {
      SplitWord(s[pos..f], d);
    }
  }

  /** A delimiter-free non-empty string is a single token. */
  lemma SplitWord(w: string, d: char)
    requires IsToken(w, d)
    ensures Split(w, d) == [w]
  {
  }

  /** Splitting distributes over a delimiter: what lies on either side of
      one delimiter is tokenized independently. */
  lemma {:induction false} SplitConcat(a: string, b: string, d: char)
    ensures Split(a + [d] + b, d) == Split(a, d) + Split(b, d)
    decreases |a|
  {
    match IndexOf(a, d)
    case None =>
      SplitConcatFree(a, b, d);
    case Some(k) =>
      SplitConcatStep(a, b, d, k);
      SplitConcat(a[k + 1..], b, d);
      SplitUnfold(a, d, k);
      ConcatAssoc(if k == 0 then [] else [a[..k]], Split(a[k + 1..], d), Split(b, d));
  }

  /** The definition of `Split` at the first delimiter. */
  lemma SplitUnfold(s: string, d: char, k: nat)
    requires IndexOf(s, d) == Some(k)
    ensures Split(s, d) == (if k == 0 then [] else [s[..k]]) + Split(s[k + 1..], d)
  {
  }

  /** Regrouping a concatenation, stated once so that the step in `SplitConcat`
      costs one instantiation rather than a search over sequence axioms. */
  lemma ConcatAssoc<T>(x: seq<T>, y: seq<T>, z: seq<T>)
    ensures x + (y + z) == (x + y) + z
  {
  }

  /** The first delimiter of `a + [d] + b` is the one between them when `a`
      has none. */
  lemma SplitConcatFree(a: string, b: string, d: char)
    requires d !in a
    ensures Split(a + [d] + b, d) == Split(a, d) + Split(b, d)
  {
    var s := a + [d] + b;
    assert s[..|a|] == a;
    IndexOfUnique(s, d, |a|);
    assert s[|a| + 1..] == b;
  }

  /** The first delimiter of `a + [d] + b` is the first one of `a` when `a`
      has one. */
  lemma SplitConcatStep(a: string, b: string, d: char, k: nat)
    requires IndexOf(a, d) == Some(k)
    ensures Split(a + [d] + b, d) == (if k == 0 then [] else [a[..k]]) + Split(a[k + 1..] + [d] + b, d)
  {
    var s := a + [d] + b;
    IndexOfPrefix(a, [d] + b, d, k);
    assert s == a + ([d] + b);
    SplitUnfold(s, d, k);
    assert s[..k] == a[..k];
    assert s[k + 1..] == a[k + 1..] + [d] + b;
  }

  /** A delimiter in `a` is found before anything appended to `a`. */
  lemma IndexOfPrefix(a: string, b: string, d: char, k: nat)
    requires IndexOf(a, d) == Some(k)
    ensures IndexOf(a + b, d) == Some(k)
  {
    assert (a + b)[..k] == a[..k];
    IndexOfUnique(a + b, d, k);
  }

  /** `k` copies of the delimiter. */
  function Repeat(d: char, k: nat): (r: string)
    ensures |r| == k && forall i | 0 <= i < k :: r[i] == d
  {
    seq(k, _ => d)
  }

  /** Leading delimiters, however many, change nothing. */
  lemma {:induction false} SplitLeading(s: string, d: char, k: nat)
    ensures Split(Repeat(d, k) + s, d) == Split(s, d)
  {
    if k > 0 {
      assert Repeat(d, k) + s == [] + [d] + (Repeat(d, k - 1) + s);
      SplitConcat([], Repeat(d, k - 1) + s, d);
      SplitLeading(s, d, k - 1);
    } else {
      assert Repeat(d, k) + s == s;
    }
  }

  /** Trailing delimiters, however many, change nothing. */
  lemma {:induction false} SplitTrailing(s: string, d: char, k: nat)
    ensures Split(s + Repeat(d, k), d) == Split(s, d)
  {
    if k > 0 {
      assert s + Repeat(d, k) == s + [d] + Repeat(d, k - 1);
      SplitConcat(s, Repeat(d, k - 1), d);
      SplitLeading([], d, k - 1);
      assert Repeat(d, k - 1) + [] == Repeat(d, k - 1);
    } else {
      assert s + Repeat(d, k) == s;
    }
  }

  /** A run of `k >= 1` delimiters between two texts splits the same as a
      single delimiter. */
  lemma SplitCollapse(a: string, b: string, d: char, k: nat)
    requires k >= 1
    ensures Split(a + Repeat(d, k) + b, d) == Split(a + [d] + b, d)
  {
    assert a + Repeat(d, k) + b == a + [d] + (Repeat(d, k - 1) + b);
    SplitConcat(a, Repeat(d, k - 1) + b, d);
    SplitLeading(b, d, k - 1);
    SplitConcat(a, b, d);
  }

  /** The pieces joined back with one delimiter between neighbours. */
  function Join(ps: seq<string>, d: char): string
  {
    if |ps| == 0 then []
    else if |ps| == 1 then ps[0]
    else ps[0] + [d] + Join(ps[1..], d)
  }

  /** The non-empty elements of `ps`, in order. */
  function NonEmpty(ps: seq<string>): (r: seq<string>)
    ensures forall p | p in r :: p != [] && p in ps
    ensures forall p | p in ps && p != [] :: p in r
  {
    if ps == [] then []
    else (if ps[0] == [] then [] else [ps[0]]) + NonEmpty(ps[1..])
  }

  /** The text between consecutive delimiters, empty pieces included: the
      decomposition of `s` at every delimiter. */
  function Pieces(s: string, d: char): (r: seq<string>)
    ensures |r| >= 1
    ensures forall p | p in r :: d !in p
    ensures Join(r, d) == s
    decreases |s|
  {
    match IndexOf(s, d)
    case None => [s]
    case Some(k) =>
      var rest := Pieces(s[k + 1..], d);
      assert s == s[..k] + [d] + s[k + 1..];
      [s[..k]] + rest
  }

  /** Joining delimiter-free pieces and splitting again returns the
      non-empty pieces. */
  lemma {:induction false} SplitJoin(ps: seq<string>, d: char)
    requires forall p | p in ps :: d !in p
    ensures Split(Join(ps, d), d) == NonEmpty(ps)
  {
    if |ps| == 0 {
    } else if |ps| == 1 {
      assert NonEmpty(ps[1..]) == [];
      if ps[0] != [] { SplitWord(ps[0], d); }
    } else {
      SplitConcat(ps[0], Join(ps[1..], d), d);
      SplitJoin(ps[1..], d);
      if ps[0] != [] { SplitWord(ps[0], d); }
    }
  }

  /** The tokens of `s` are exactly its maximal delimiter-free segments with
      the empty ones left out. */
  lemma SplitIsNonEmptyPieces(s: string, d: char)
    ensures Split(s, d) == NonEmpty(Pieces(s, d))
  {
    SplitJoin(Pieces(s, d), d);
  }

  /** Tokens joined with single delimiters split back into the same tokens. */
  lemma SplitJoinTokens(ts: seq<string>, d: char)
    requires forall t | t in ts :: IsToken(t, d)
    ensures Split(Join(ts, d), d) == ts
  {
    SplitJoin(ts, d);
    NonEmptyOfTokens(ts, d);
  }

  lemma {:induction false} NonEmptyOfTokens(ts: seq<string>, d: char)
    requires forall t | t in ts :: IsToken(t, d)
    ensures NonEmpty(ts) == ts
  {
    if ts != [] {
      assert ts[0] in ts;
      assert forall t | t in ts[1..] :: t in ts;
      NonEmptyOfTokens(ts[1..], d);
    }
  }
}
