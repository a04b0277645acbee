/**
 * Parsing of the comma-separated username list given on the command line
 * (`validate_names`). The list is split at every comma and the pieces that
 * are blank are dropped; the pieces that survive keep their surrounding
 * whitespace.
 */
module Names {
  import opened Records

  /** The characters Python's `str.isspace` accepts, which are the ones
      `str.strip()` removes. */
  predicate IsSpace(c: char) {
    c in {' ', '\t', '\n', '\r', '\U{B}', '\U{C}', '\U{1C}', '\U{1D}', '\U{1E}', '\U{1F}',
          '\U{85}', '\U{A0}', '\U{1680}', '\U{2028}', '\U{2029}', '\U{202F}',
          '\U{205F}', '\U{3000}'}
    || '\U{2000}' <= c <= '\U{200A}'
  }

  /** A piece is blank when stripping its whitespace leaves nothing. */
  predicate Blank(s: string) {
    forall i :: 0 <= i < |s| ==> IsSpace(s[i])
  }

  /** `s.split(",")`: the maximal comma-free pieces of `s`, in order; an
      input with k commas gives k + 1 pieces, some of them possibly empty. */
  function Split(s: string): (r: seq<string>)
    ensures |r| >= 1
  {
    if |s| == 0 then [""]
    else
      var rest := Split(s[1..]);
      if s[0] == ',' then [""] + rest
      else [[s[0]] + rest[0]] + rest[1..]
  }

  /** `",".join(parts)`, the inverse of Split. */
  function Join(parts: seq<string>): string
    requires |parts| >= 1
  {
    if |parts| == 1 then parts[0] else parts[0] + "," + Join(parts[1..])
  }

  /** The pieces that are not blank, in their original order. */
  function NonBlank(parts: seq<string>): (r: seq<string>)
    ensures |r| <= |parts|
    ensures forall p :: p in r <==> p in parts && !Blank(p)
  {
    if |parts| == 0 then []
    else if Blank(parts[0]) then NonBlank(parts[1..])
    else [parts[0]] + NonBlank(parts[1..])
  }

  /** Each non-blank piece survives as many times as it occurs, and no
      blank piece survives. */
  lemma {:induction false} NonBlankCounts(parts: seq<string>)
    ensures forall p :: multiset(NonBlank(parts))[p] == if Blank(p) then 0 else multiset(parts)[p]
  {
    if |parts| > 0 {
      NonBlankCounts(parts[1..]);
      assert parts == [parts[0]] + parts[1..];
    }
  }

  /** Filtering a list made of two parts filters each part on its own and
      keeps them in order; with NonBlankSingle this fixes the order of the
      survivors as well as how often each one appears. */
  lemma {:induction false} NonBlankAppend(a: seq<string>, b: seq<string>)
    ensures NonBlank(a + b) == NonBlank(a) + NonBlank(b)
  {
    if |a| == 0 {
      assert a + b == b;
    } else {
      var x, t := a[0], a[1..];
      NonBlankAppend(t, b);
      NonBlankCons(x, t + b);
      NonBlankCons(x, t);
      Uncons(a, b);
      Associative(if Blank(x) then [] else [x], NonBlank(t), NonBlank(b));
    }
  }

  /** A non-empty list is its head followed by its tail, also in front of
      more elements. */
  lemma Uncons<T>(a: seq<T>, b: seq<T>)
    requires |a| > 0
    ensures [a[0]] + a[1..] == a && [a[0]] + (a[1..] + b) == a + b
  {
  }

  /** The filter on a piece followed by more pieces. */
  lemma NonBlankCons(p: string, rest: seq<string>)
    ensures NonBlank([p] + rest) == (if Blank(p) then [] else [p]) + NonBlank(rest)
  {
    assert ([p] + rest)[0] == p && ([p] + rest)[1..] == rest;
  }

  /** A single piece survives exactly when it is not blank. */
  lemma NonBlankSingle(p: string)
    ensures NonBlank([p]) == if Blank(p) then [] else [p]
  {
  }

  /** `validate_names`: with a comma present, the non-blank pieces of the
      split; otherwise the whole input if it is not blank, else nothing. */
  function ValidateNames(names: string): (r: seq<string>)
    ensures forall i :: 0 <= i < |r| ==> !Blank(r[i]) && ',' !in r[i]
  {
    SplitHasNoCommas(names);
    if ',' in names then NonBlank(Split(names))
    else if !Blank(names) then [names]
    else []
  }

  /** No piece of a split contains a comma. */
  lemma {:induction false} SplitHasNoCommas(s: string)
    ensures forall i :: 0 <= i < |Split(s)| ==> ',' !in Split(s)[i]
  {
    if |s| > 0 {
      SplitHasNoCommas(s[1..]);
    }
  }

  /** Joining the pieces with commas gives back the input: the split loses
      nothing and reorders nothing. */
  lemma {:induction false} JoinSplit(s: string)
    ensures Join(Split(s)) == s
  {
    if |s| > 0 {
      JoinSplit(s[1..]);
      var rest := Split(s[1..]);
      if s[0] == ',' {
        assert Split(s)[1..] == rest;
      } else {
        var r := Split(s);
        assert r[0] == [s[0]] + rest[0];
        if |rest| == 1 {
          assert |r| == 1;
        } else {
          assert r[1..] == rest[1..];
          assert Join(rest) == rest[0] + "," + Join(rest[1..]);
        }
      }
    }
  }

  /** Splitting comma-free pieces joined by commas gives back the pieces. */
  lemma {:induction false} SplitJoin(parts: seq<string>)
    requires |parts| >= 1
    requires forall i :: 0 <= i < |parts| ==> ',' !in parts[i]
    ensures Split(Join(parts)) == parts
  {
    if |parts| == 1 {
      SplitOfCommaFree(parts[0]);
    } else {
      SplitJoin(parts[1..]);
      SplitPrefix(parts[0], Join(parts[1..]));
    }
  }

  /** A comma-free string is a single piece. */
  lemma {:induction false} SplitOfCommaFree(s: string)
    requires ',' !in s
    ensures Split(s) == [s]
  {
    if |s| > 0 {
      assert ',' !in s[1..] by {
        forall i | 0 <= i < |s[1..]| ensures s[1..][i] != ',' {
          assert s[1..][i] == s[i + 1];
        }
      }
      SplitOfCommaFree(s[1..]);
      assert [s[0]] + s[1..] == s;
    }
  }

  /** A comma-free head followed by a comma splits off as the first piece. */
  lemma {:induction false} SplitPrefix(head: string, tail: string)
    requires ',' !in head
    ensures Split(head + "," + tail) == [head] + Split(tail)
  {
    if |head| == 0 {
      assert head + "," + tail == [','] + tail;
      assert (head + "," + tail)[1..] == tail;
    } else {
      var s := head + "," + tail;
      assert s[1..] == head[1..] + "," + tail;
      assert ',' !in head[1..] by {
        forall i | 0 <= i < |head[1..]| ensures head[1..][i] != ',' {
          assert head[1..][i] == head[i + 1];
        }
      }
      SplitPrefix(head[1..], tail);
      assert [head[0]] + head[1..] == head;
    }
  }

  /** Both branches of validate_names agree: the result is always the
      non-blank pieces of the split, in input order. */
  lemma ValidateNamesIsNonBlankPieces(names: string)
    ensures ValidateNames(names) == NonBlank(Split(names))
  {
    if ',' !in names {
      SplitOfCommaFree(names);
      assert Split(names)[1..] == [];
    }
  }

  /** Every non-blank piece of the input survives, and nothing else does. */
  lemma ValidateNamesKeepsNonBlank(names: string, p: string)
    ensures p in ValidateNames(names) <==> p in Split(names) && !Blank(p)
  {
    ValidateNamesIsNonBlankPieces(names);
  }

  /** Without a comma the result is the input itself when it is not blank. */
  lemma ValidateNamesWithoutComma(names: string)
    requires ',' !in names
    ensures !Blank(names) ==> ValidateNames(names) == [names]
    ensures Blank(names) ==> ValidateNames(names) == []
  {
  }

  /** An empty piece between two commas is dropped: two names separated by
      a doubled comma come out as just those two names. */
  lemma ValidateNamesDropsEmpty(a: string, b: string)
    requires ',' !in a && ',' !in b && !Blank(a) && !Blank(b)
    ensures ValidateNames(a + ",," + b) == [a, b]
  {
    var s := a + ",," + b;
    assert s == a + "," + ("," + b);
    assert "," + b == "" + "," + b;
    SplitPrefix(a, "," + b);
    SplitPrefix("", b);
    SplitOfCommaFree(b);
    var parts := Split(s);
    assert parts == [a, "", b];
    assert s[|a|] == ',';
    assert NonBlank(parts[2..]) == [b] by {
      assert parts[2..][1..] == [];
    }
    assert NonBlank(parts[1..]) == [b] by {
      assert Blank("");
      assert parts[1..][1..] == parts[2..];
    }
  }

  /** Surviving pieces are not stripped. */
  lemma ValidateNamesKeepsPadding()
    ensures ValidateNames(" a, ") == [" a"]
  {
    SplitPrefix(" a", " ");
    SplitOfCommaFree(" ");
    assert " a" + "," + " " == " a, ";
    assert !Blank(" a") by { assert !IsSpace(" a"[1]); }
    assert Blank(" ") by { assert IsSpace(" "[0]); }
  }
}
