/** Line keys: a winning line is remembered by its ids joined with `'-'`
    (`bingo.join('-')`). `Split` is the inverse used to state what a key
    determines. */
module Keys {

  /** The separator placed between ids. */
  const Sep: char := '-'

  /** The total length of the parts. */
  function TotalLength(parts: seq<string>): nat
  {
    if |parts| == 0 then 0 else |parts[0]| + TotalLength(parts[1..])
  }

  /** `parts.join(sep)`: the parts with `sep` between neighbours; the empty
      list joins to the empty string, and a non-empty list adds one separator
      fewer than it has parts. */
  function Join(parts: seq<string>, sep: char): (s: string)
    ensures |parts| == 0 ==> s == ""
    ensures |parts| > 0 ==> |s| == TotalLength(parts) + |parts| - 1
    ensures |parts| > 0 ==> parts[0] <= s
  {
    if |parts| == 0 then ""
    else if |parts| == 1 then parts[0]
    else parts[0] + [sep] + Join(parts[1..], sep)
  }

  /** Cuts `s` at every `sep`; always yields at least one (possibly empty)
      piece, as `String.prototype.split` does. */
  function Split(s: string, sep: char): (parts: seq<string>)
    ensures |parts| >= 1
  {
    if |s| == 0 then [""]
    else if s[0] == sep then [""] + Split(s[1..], sep)
    else
      var rest := Split(s[1..], sep);
      [[s[0]] + rest[0]] + rest[1..]
  }

  /** `bingo.join('-')`: the key of a line of ids. A non-empty line of
      separator-free ids can be read back from its key. */
  function Key(ids: seq<string>): (k: string)
    ensures |ids| > 0 && NoSep(ids, Sep) ==> Split(k, Sep) == ids
  {
    assert |ids| > 0 && NoSep(ids, Sep) ==> Split(Join(ids, Sep), Sep) == ids by {
      if |ids| > 0 && NoSep(ids, Sep) { SplitJoin(ids, Sep); }
    }
    Join(ids, Sep)
  }

  /** True iff no part contains the separator. */
  predicate NoSep(parts: seq<string>, sep: char)
  {
    forall i | 0 <= i < |parts| :: sep !in parts[i]
  }

  /** Splitting a separator-free piece followed by a separator and a tail
      yields that piece, then the pieces of the tail. */
  lemma {:induction false} SplitPrefix(p: string, sep: char, t: string)
    requires sep !in p
    ensures Split(p + [sep] + t, sep) == [p] + Split(t, sep)
  {
    var s := p + [sep] + t;
    if |p| > 0 {
      SplitPrefix(p[1..], sep, t);
      assert s[1..] == p[1..] + [sep] + t;
      var rest := Split(s[1..], sep);
      assert rest[0] == p[1..] && rest[1..] == Split(t, sep);
      assert [p[0]] + p[1..] == p;
    } else {
      assert s[1..] == t;
    }
  }

  /** A separator-free string splits into itself alone. */
  lemma {:induction false} SplitNoSep(p: string, sep: char)
    requires sep !in p
    ensures Split(p, sep) == [p]
  {
    if |p| > 0 {
      SplitNoSep(p[1..], sep);
      assert [p[0]] + p[1..] == p;
    }
  }

  /** Round trip: splitting a join recovers a non-empty list of
      separator-free parts. */
  lemma {:induction false} SplitJoin(parts: seq<string>, sep: char)
    requires |parts| > 0 && NoSep(parts, sep)
    ensures Split(Join(parts, sep), sep) == parts
  {
    if |parts| == 1 {
      SplitNoSep(parts[0], sep);
    } else {
      SplitJoin(parts[1..], sep);
      SplitPrefix(parts[0], sep, Join(parts[1..], sep));
    }
  }

  /** Lines of separator-free ids are told apart by their keys: both lines
      are read back from the one key, by the contract of `Key`. */
  lemma KeyInjective(a: seq<string>, b: seq<string>)
    requires |a| > 0 && |b| > 0 && NoSep(a, Sep) && NoSep(b, Sep)
    ensures Key(a) == Key(b) <==> a == b
  {
  }

  /** Without that precondition keys may collide: two different lines whose
      ids contain `'-'` share one key, so one line's celebration suppresses
      the other's. */
  lemma KeysCollideWhenIdsHoldSeparator()
    ensures Key(["a-b", "c"]) == Key(["a", "b-c"])
    ensures ["a-b", "c"] != ["a", "b-c"]
  {
    assert ["a-b", "c"][0] != ["a", "b-c"][0];
  }
}
