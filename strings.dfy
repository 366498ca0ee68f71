/** The three functions of Go's `strings` package that the command parser
    relies on, restricted to ASCII text: `Split` with a one-character
    separator, `TrimSpace` and `ToUpper`. */
module GoStrings {

  /** The ASCII white-space characters `strings.TrimSpace` removes:
      tab, line feed, vertical tab, form feed, carriage return (9..13) and space. */
  predicate IsSpace(ch: char) {
    ch == ' ' || ('\t' <= ch <= '\r')
  }

  predicate AllSpace(s: string) {
    forall k :: 0 <= k < |s| ==> IsSpace(s[k])
  }

  // ---------------------------------------------------------------- Split

  /** `strings.Split(s, string(sep))`: the pieces of `s` between occurrences
      of `sep`. Like Go's, it never returns an empty list: splitting "" gives [""]. */
  function Split(s: string, sep: char): (pieces: seq<string>)
    ensures |pieces| >= 1
    decreases |s|
  {
    if s == [] then [[]]
    else
      var rest := Split(s[1..], sep);
      if s[0] == sep then [[]] + rest
      else [[s[0]] + rest[0]] + rest[1..]
  }

  /** No piece contains the separator. */
  lemma {:induction false} SplitPiecesFree(s: string, sep: char)
    ensures forall k :: 0 <= k < |Split(s, sep)| ==> sep !in Split(s, sep)[k]
    decreases |s|
  {
    if s != [] {
      SplitPiecesFree(s[1..], sep);
    }
  }

  /** `strings.Join(pieces, string(sep))`, the inverse of `Split`. */
  function Join(pieces: seq<string>, sep: char): string
  {
    if |pieces| == 0 then []
    else if |pieces| == 1 then pieces[0]
    else pieces[0] + [sep] + Join(pieces[1..], sep)
  }

  /** Joining the pieces back with the separator restores the input. */
  lemma {:induction false} SplitJoin(s: string, sep: char)
    ensures Join(Split(s, sep), sep) == s
    decreases |s|
  {
    if s != [] {
      var rest := Split(s[1..], sep);
      SplitJoin(s[1..], sep);
      if s[0] == sep {
        assert Split(s, sep) == [[]] + rest;
      } else {
        var pieces := Split(s, sep);
        assert pieces == [[s[0]] + rest[0]] + rest[1..];
        if |rest| == 1 {
          assert Join(rest, sep) == rest[0];
        } else {
          assert Join(rest, sep) == rest[0] + [sep] + Join(rest[1..], sep);
          assert pieces[1..] == rest[1..];
        }
      }
    }
  }

  /** Without the separator the input comes back as the only piece. */
  lemma {:induction false} SplitWithoutSeparator(s: string, sep: char)
    requires sep !in s
    ensures Split(s, sep) == [s]
    decreases |s|
  {
    if s != [] {
      assert sep !in s[1..] by {
        forall ch | ch in s[1..] ensures ch != sep { }
      }
      SplitWithoutSeparator(s[1..], sep);
      assert [s[0]] + s[1..] == s;
    }
  }

  /** How `Split` treats the first character. */
  lemma SplitCons(ch: char, t: string, sep: char)
    ensures Split([ch] + t, sep) ==
      if ch == sep then [[]] + Split(t, sep)
      else [[ch] + Split(t, sep)[0]] + Split(t, sep)[1..]
  {
    assert ([ch] + t)[1..] == t;
  }

  /** Extending the first piece of `pieces + more` extends the first piece of `pieces`. */
  lemma ExtendFirstPiece(ch: char, pieces: seq<string>, more: seq<string>)
    requires |pieces| >= 1
    ensures [[ch] + (pieces + more)[0]] + (pieces + more)[1..] == ([[ch] + pieces[0]] + pieces[1..]) + more
  {
    assert (pieces + more)[0] == pieces[0];
    assert (pieces + more)[1..] == pieces[1..] + more;
  }

  /** The inductive step of `SplitConcat`: one more leading character. */
  lemma SplitConcatStep(ch: char, a: string, b: string, sep: char)
    requires Split(a + [sep] + b, sep) == Split(a, sep) + Split(b, sep)
    ensures Split([ch] + (a + [sep] + b), sep) == Split([ch] + a, sep) + Split(b, sep)
  {
    SplitCons(ch, a + [sep] + b, sep);
    SplitCons(ch, a, sep);
    if ch == sep {
      AppendAssociative([[]], Split(a, sep), Split(b, sep));
    } else {
      ExtendFirstPiece(ch, Split(a, sep), Split(b, sep));
    }
  }

  lemma AppendAssociative(x: seq<string>, y: seq<string>, z: seq<string>)
    ensures x + (y + z) == (x + y) + z
  {
  }

  /** A separator between two texts splits them independently:
      `Split(a + sep + b) == Split(a) + Split(b)`. */
  lemma {:induction false} SplitConcat(a: string, b: string, sep: char)
    ensures Split(a + [sep] + b, sep) == Split(a, sep) + Split(b, sep)
    decreases |a|
  {
    if a == [] {
      assert a + [sep] + b == [sep] + b;
      SplitCons(sep, b, sep);
    } else {
      SplitConcat(a[1..], b, sep);
      SplitConcatStep(a[0], a[1..], b, sep);
      assert [a[0]] + a[1..] == a;
      assert a + [sep] + b == [a[0]] + (a[1..] + [sep] + b);
    }
  }

  // ---------------------------------------------------------------- TrimSpace

  /** Drops leading white space. */
  function TrimLeft(s: string): (r: string)
    ensures |r| <= |s| && r == s[|s| - |r|..]
    ensures r == [] <==> AllSpace(s)
    ensures r == [] || !IsSpace(r[0])
    decreases |s|
  {
    if s != [] && IsSpace(s[0]) then
      var r := TrimLeft(s[1..]);
      assert AllSpace(s[1..]) ==> AllSpace(s) by {
        if AllSpace(s[1..]) {
          forall k | 0 < k < |s| ensures IsSpace(s[k]) { assert s[k] == s[1..][k - 1]; }
        }
      }
      r
    else s
  }

  /** Drops trailing white space. */
  function TrimRight(s: string): (r: string)
    ensures |r| <= |s| && r == s[..|r|]
    ensures r == [] <==> AllSpace(s)
    ensures r == [] || !IsSpace(r[|r| - 1])
    decreases |s|
  {
    if s != [] && IsSpace(s[|s| - 1]) then
      var init := s[..|s| - 1];
      var r := TrimRight(init);
      assert AllSpace(init) ==> AllSpace(s) by {
        if AllSpace(init) {
          forall k | 0 <= k < |s| - 1 ensures IsSpace(s[k]) { assert s[k] == init[k]; }
        }
      }
      assert r == s[..|r|] by { assert init[..|r|] == s[..|r|]; }
      r
    else s
  }

  /** `strings.TrimSpace`: the text between the leading and the trailing
      white space. It is empty exactly when the input is all white space,
      and otherwise neither starts nor ends with white space. */
  function TrimSpace(s: string): (r: string)
    ensures |r| <= |s|
    ensures r == [] <==> AllSpace(s)
    ensures r != [] ==> !IsSpace(r[0]) && !IsSpace(r[|r| - 1])
  {
    var left := TrimLeft(s);
    var r := TrimRight(left);
    assert r != [] ==> r[0] == left[0];
    r
  }

  /** What `TrimLeft` drops is white space. */
  lemma TrimLeftDropsSpace(s: string)
    ensures AllSpace(s[..|s| - |TrimLeft(s)|])
  {
    var n := |s| - |TrimLeft(s)|;
    LeadingSpace(s);
    forall k | 0 <= k < n ensures IsSpace(s[..n][k]) {
      assert s[..n][k] == s[k];
    }
  }

  /** Each of the characters `TrimLeft` drops is white space. */
  lemma {:induction false} LeadingSpace(s: string)
    ensures forall k :: 0 <= k < |s| - |TrimLeft(s)| ==> IsSpace(s[k])
    decreases |s|
  {
    if s != [] && IsSpace(s[0]) {
      var t := s[1..];
      LeadingSpace(t);
      assert |TrimLeft(s)| == |TrimLeft(t)|;
      forall k | 0 < k < |s| - |TrimLeft(s)| ensures IsSpace(s[k]) {
        assert s[k] == t[k - 1];
      }
    } else {
      assert |TrimLeft(s)| == |s|;
    }
  }

  /** What `TrimRight` drops is white space. */
  lemma {:induction false} TrimRightDropsSpace(s: string)
    ensures AllSpace(s[|TrimRight(s)|..])
    decreases |s|
  {
    if s != [] && IsSpace(s[|s| - 1]) {
      var init := s[..|s| - 1];
      TrimRightDropsSpace(init);
      var n := |TrimRight(s)|;
      forall k | 0 <= k < |s| - n ensures IsSpace(s[n..][k]) {
        if k < |s| - 1 - n {
          assert s[n..][k] == init[n..][k];
        }
      }
    }
  }

  /** A prefix `r` of a suffix `left` of `s`, with white space before
      `left` and after `r`, is a slice of `s` surrounded by white space. */
  lemma SpaceAroundSlice(s: string, left: string, r: string)
    ensures |left| <= |s| && left == s[|s| - |left|..] && AllSpace(s[..|s| - |left|]) &&
            |r| <= |left| && r == left[..|r|] && AllSpace(left[|r|..]) ==>
      exists i :: 0 <= i <= |s| - |r| && r == s[i..i + |r|] && AllSpace(s[..i]) && AllSpace(s[i + |r|..])
  {
    if |left| <= |s| && left == s[|s| - |left|..] && |r| <= |left| && r == left[..|r|] {
      var i := |s| - |left|;
      assert s[i + |r|..] == left[|r|..];
      assert r == s[i..i + |r|];
    }
  }

  /** `TrimSpace` keeps a contiguous slice of its input and drops only white
      space before and after it. */
  lemma TrimSpaceIsInfix(s: string)
    ensures var r := TrimSpace(s);
      exists i :: 0 <= i <= |s| - |r| && r == s[i..i + |r|] && AllSpace(s[..i]) && AllSpace(s[i + |r|..])
  {
    TrimLeftDropsSpace(s);
    TrimSpaceKeepsPrefix(s);
    SpaceAroundSlice(s, TrimLeft(s), TrimSpace(s));
  }

  /** `TrimSpace` keeps a prefix of what `TrimLeft` keeps and drops only
      white space after it. */
  lemma TrimSpaceKeepsPrefix(s: string)
    ensures var left, r := TrimLeft(s), TrimSpace(s);
      |r| <= |left| && r == left[..|r|] && AllSpace(left[|r|..])
  {
    TrimRightDropsSpace(TrimLeft(s));
  }

  /** Text that neither starts nor ends with white space is its own trim. */
  lemma TrimSpaceOfTrimmed(s: string)
    requires s == [] || (!IsSpace(s[0]) && !IsSpace(s[|s| - 1]))
    ensures TrimSpace(s) == s
  {
  }

  // ---------------------------------------------------------------- ToUpper

  /** ASCII upper case of one character; every other character is kept. */
  function UpperChar(ch: char): char {
    if 'a' <= ch <= 'z' then (ch as int - 32) as char else ch
  }

  predicate IsLower(ch: char) {
    'a' <= ch <= 'z'
  }

  /** `strings.ToUpper` on ASCII text: same length, each letter raised,
      no lower-case ASCII letter left. */
  function ToUpper(s: string): (r: string)
    ensures |r| == |s|
    ensures forall k :: 0 <= k < |s| ==> r[k] == UpperChar(s[k])
    decreases |s|
  {
    if s == [] then [] else [UpperChar(s[0])] + ToUpper(s[1..])
  }

  /** No lower-case ASCII letter survives upper-casing. */
  lemma NoLowerAfterToUpper(s: string)
    ensures forall k :: 0 <= k < |ToUpper(s)| ==> !IsLower(ToUpper(s)[k])
  {
  }

  /** Upper-casing twice is upper-casing once. */
  lemma ToUpperIdempotent(s: string)
    ensures ToUpper(ToUpper(s)) == ToUpper(s)
  {
    var u := ToUpper(s);
    assert forall k :: 0 <= k < |u| ==> UpperChar(u[k]) == u[k];
  }
}
