/** The keep line of HandleDuplicateGroup: _tcstok splits it at commas, _ttoi turns
    each token into an int, and the values in 1..count are the members to keep. The
    members whose 1-based index is not kept form the delete list, built by prepending,
    so it runs from the highest index down. */
module KeepLine {
  import opened Chars

  /** The pieces _tcstok(line, ",") returns in turn: the maximal runs of non-comma
      characters, empty runs skipped. `current` is the piece read so far. */
  function TokensFrom(line: string, current: string): (ts: seq<string>)
    requires ',' !in current
    ensures forall k :: 0 <= k < |ts| ==> |ts[k]| > 0 && ',' !in ts[k]
  {
    if |line| == 0 then
      (if |current| > 0 then [current] else [])
    else if line[0] == ',' then
      (if |current| > 0 then [current] else []) + TokensFrom(line[1..], "")
    else
      TokensFrom(line[1..], current + [line[0]])
  }

  function Tokens(line: string): (ts: seq<string>)
    ensures forall k :: 0 <= k < |ts| ==> |ts[k]| > 0 && ',' !in ts[k]
  {
    TokensFrom(line, "")
  }

  /** The tokens joined with commas: the line _tcstok would split back into them. */
  function Join(ts: seq<string>): string {
    if |ts| == 0 then "" else if |ts| == 1 then ts[0] else ts[0] + "," + Join(ts[1..])
  }

  function Concat(ts: seq<string>): string {
    if |ts| == 0 then "" else ts[0] + Concat(ts[1..])
  }

  function RemoveCommas(s: string): (r: string)
    ensures ',' !in r
  {
    if |s| == 0 then "" else (if s[0] == ',' then "" else [s[0]]) + RemoveCommas(s[1..])
  }

  /** No character is lost or invented: the tokens are the line with its commas taken
      out, cut at the commas. */
  lemma {:induction false} TokensConcat(line: string, current: string)
    requires ',' !in current
    ensures Concat(TokensFrom(line, current)) == current + RemoveCommas(line)
  {
    if |line| == 0 {
    } else if line[0] == ',' {
      TokensConcat(line[1..], "");
      var rest := TokensFrom(line[1..], "");
      if |current| > 0 {
        assert ([current] + rest)[1..] == rest;
      } else {
        assert [] + rest == rest;
      }
    } else {
      TokensConcat(line[1..], current + [line[0]]);
    }
  }

  /** Reading a comma-free stretch only extends the current piece. */
  lemma {:induction false} TokensFromCommaFree(t: string, rest: string, current: string)
    requires ',' !in t && ',' !in current
    ensures TokensFrom(t + rest, current) == TokensFrom(rest, current + t)
    decreases |t|
  {
    if |t| > 0 {
      assert (t + rest)[0] == t[0] && (t + rest)[1..] == t[1..] + rest;
      TokensFromCommaFree(t[1..], rest, current + [t[0]]);
      assert current + [t[0]] + t[1..] == current + t;
    } else {
      assert t + rest == rest && current + t == current;
    }
  }

  /** Splitting undoes joining, for non-empty comma-free tokens. */
  lemma {:induction false} TokensJoin(ts: seq<string>)
    requires forall k :: 0 <= k < |ts| ==> |ts[k]| > 0 && ',' !in ts[k]
    ensures Tokens(Join(ts)) == ts
  {
    if |ts| == 1 {
      TokensFromCommaFree(ts[0], "", "");
      assert ts[0] + "" == ts[0] && "" + ts[0] == ts[0];
    } else if |ts| > 1 {
      var rest := Join(ts[1..]);
      TokensFromCommaFree(ts[0], "," + rest, "");
      assert ts[0] + "," + rest == ts[0] + ("," + rest);
      assert "" + ts[0] == ts[0];
      assert ("," + rest)[1..] == rest;
      TokensJoin(ts[1..]);
      assert ts == [ts[0]] + ts[1..];
    }
  }

  const IntMax: int := 0x7FFF_FFFF
  const IntMin: int := -0x8000_0000

  /** The text after the leading white space. */
  function SkipSpace(s: string): (r: string)
    ensures |r| <= |s| && r == s[|s| - |r|..]
    ensures forall i :: 0 <= i < |s| - |r| ==> IsSpace(s[i])
    ensures |r| > 0 ==> !IsSpace(r[0])
  {
    if |s| > 0 && IsSpace(s[0]) then SkipSpace(s[1..]) else s
  }

  /** The leading digits. */
  function DigitPrefix(s: string): (d: string)
    ensures |d| <= |s| && d == s[..|d|]
    ensures forall i :: 0 <= i < |d| ==> IsDigit(d[i])
    ensures |d| < |s| ==> !IsDigit(s[|d|])
  {
    if |s| > 0 && IsDigit(s[0]) then [s[0]] + DigitPrefix(s[1..]) else ""
  }

  /** The value of a string of decimal digits, most significant first. */
  function DigitsValue(d: string): (v: nat)
    requires forall i :: 0 <= i < |d| ==> IsDigit(d[i])
  {
    if |d| == 0 then 0
    else
      assert IsDigit(d[|d| - 1]);
      DigitsValue(d[..|d| - 1]) * 10 + (d[|d| - 1] as int - '0' as int)
  }

  function Clamp(v: int): (r: int)
    ensures IntMin <= r <= IntMax
    ensures IntMin <= v <= IntMax ==> r == v
  {
    if v > IntMax then IntMax else if v < IntMin then IntMin else v
  }

  /** _ttoi: leading white space, an optional sign, then as many digits as follow; no
      digit gives 0, and an out-of-range value is clamped to the int range as the
      Microsoft C runtime does. */
  function Atoi(t: string): (v: int)
    ensures IntMin <= v <= IntMax
  {
    var u := SkipSpace(t);
    var negative := |u| > 0 && u[0] == '-';
    var rest := if |u| > 0 && (u[0] == '-' || u[0] == '+') then u[1..] else u;
    var magnitude: int := DigitsValue(DigitPrefix(rest));
    Clamp(if negative then -magnitude else magnitude)
  }

  /** The decimal numeral of n, without leading zeros. */
  function Decimal(n: nat): (d: string)
    ensures |d| > 0
    ensures forall i :: 0 <= i < |d| ==> IsDigit(d[i])
  {
    var last := ['0' + (n % 10) as char];
    if n < 10 then last else Decimal(n / 10) + last
  }

  lemma {:induction false} DecimalValue(n: nat)
    ensures DigitsValue(Decimal(n)) == n
  {
    if n >= 10 {
      DecimalValue(n / 10);
      var d := Decimal(n);
      assert d[..|d| - 1] == Decimal(n / 10);
    }
  }

  lemma {:induction false} DigitPrefixAll(d: string, tail: string)
    requires forall i :: 0 <= i < |d| ==> IsDigit(d[i])
    requires |tail| == 0 || !IsDigit(tail[0])
    ensures DigitPrefix(d + tail) == d
  {
    if |d| > 0 {
      assert (d + tail)[1..] == d[1..] + tail;
      DigitPrefixAll(d[1..], tail);
      assert d == [d[0]] + d[1..];
    } else {
      assert d + tail == tail;
    }
  }

  lemma {:induction false} SkipSpaceAll(ws: string, rest: string)
    requires forall i :: 0 <= i < |ws| ==> IsSpace(ws[i])
    requires |rest| == 0 || !IsSpace(rest[0])
    ensures SkipSpace(ws + rest) == rest
  {
    if |ws| > 0 {
      assert (ws + rest)[1..] == ws[1..] + rest;
      SkipSpaceAll(ws[1..], rest);
    } else {
      assert ws + rest == rest;
    }
  }

  /** _ttoi reads back a numeral: white space before it and anything but a digit after
      it are ignored. */
  lemma AtoiDecimal(ws: string, n: nat, tail: string)
    requires forall i :: 0 <= i < |ws| ==> IsSpace(ws[i])
    requires |tail| == 0 || !IsDigit(tail[0])
    requires n <= IntMax
    ensures Atoi(ws + Decimal(n) + tail) == n
  {
    AtoiNumeral(ws, Decimal(n), tail);
    DecimalValue(n);
  }

  /** White space, digits, then anything but a digit: _ttoi gives the digits' value,
      clamped to the int range. */
  lemma AtoiNumeral(ws: string, d: string, tail: string)
    requires forall i :: 0 <= i < |ws| ==> IsSpace(ws[i])
    requires |d| > 0 && forall i :: 0 <= i < |d| ==> IsDigit(d[i])
    requires |tail| == 0 || !IsDigit(tail[0])
    ensures Atoi(ws + d + tail) == Clamp(DigitsValue(d))
  {
    SkipSpaceNumeral(ws, d, tail);
    AtoiAfterSkip(ws + d + tail, d, tail);
  }

  lemma SkipSpaceNumeral(ws: string, d: string, tail: string)
    requires forall i :: 0 <= i < |ws| ==> IsSpace(ws[i])
    requires |d| > 0 && forall i :: 0 <= i < |d| ==> IsDigit(d[i])
    ensures SkipSpace(ws + d + tail) == d + tail
  {
    assert ws + d + tail == ws + (d + tail);
    assert (d + tail)[0] == d[0];
    SkipSpaceAll(ws, d + tail);
  }

  lemma AtoiAfterSkip(x: string, d: string, tail: string)
    requires |d| > 0 && forall i :: 0 <= i < |d| ==> IsDigit(d[i])
    requires |tail| == 0 || !IsDigit(tail[0])
    requires SkipSpace(x) == d + tail
    ensures Atoi(x) == Clamp(DigitsValue(d))
  {
    AtoiDigits(d, tail);
    AtoiAfterSpace(x, d + tail);
  }

  /** _ttoi looks only at what follows the leading white space. */
  lemma AtoiAfterSpace(x: string, y: string)
    requires SkipSpace(x) == SkipSpace(y)
    ensures Atoi(x) == Atoi(y)
  {
  }

  /** Without white space, a string of digits followed by a non-digit reads as the
      digits' value, clamped. */
  lemma AtoiDigits(d: string, tail: string)
    requires |d| > 0 && forall i :: 0 <= i < |d| ==> IsDigit(d[i])
    requires |tail| == 0 || !IsDigit(tail[0])
    ensures SkipSpace(d + tail) == d + tail
    ensures Atoi(d + tail) == Clamp(DigitsValue(d))
  {
    var x := d + tail;
    assert x[0] == d[0];
    assert !IsSpace(x[0]) && x[0] != '-' && x[0] != '+';
    DigitPrefixAll(d, tail);
  }

  /** A token that, after white space and an optional sign, does not start with a digit
      reads as 0. */
  lemma AtoiNoDigits(t: string)
    requires var u := SkipSpace(t);
      var rest := if |u| > 0 && (u[0] == '-' || u[0] == '+') then u[1..] else u;
      |rest| == 0 || !IsDigit(rest[0])
    ensures Atoi(t) == 0
  {
  }

  /** The value _ttoi gives each token. */
  function Values(tokens: seq<string>): (vs: seq<int>)
    ensures |vs| == |tokens|
    ensures forall i :: 0 <= i < |tokens| ==> vs[i] == Atoi(tokens[i])
  {
    seq(|tokens|, i requires 0 <= i < |tokens| => Atoi(tokens[i]))
  }

  /** The values in 1..count, in order: the ones the keep loop appends. */
  function KeepValues(vs: seq<int>, count: int): (keep: seq<int>)
    ensures |keep| <= |vs|
    ensures forall k :: 0 <= k < |keep| ==> 1 <= keep[k] <= count
  {
    if |vs| == 0 then []
    else (if 1 <= vs[0] <= count then [vs[0]] else []) + KeepValues(vs[1..], count)
  }

  lemma {:induction false} KeepValuesMembers(vs: seq<int>, count: int, v: int)
    ensures v in KeepValues(vs, count) <==> 1 <= v <= count && v in vs
  {
    if |vs| > 0 {
      KeepValuesMembers(vs[1..], count, v);
      assert vs == [vs[0]] + vs[1..];
    }
  }

  /** The values of the tokens that name a member, in token order. */
  function KeepIndices(tokens: seq<string>, count: int): (keep: seq<int>)
    ensures |keep| <= |tokens|
    ensures forall k :: 0 <= k < |keep| ==> 1 <= keep[k] <= count
  {
    KeepValues(Values(tokens), count)
  }

  /** A value is kept exactly when it is in 1..count and some token reads as it. */
  lemma KeepIndicesMembers(tokens: seq<string>, count: int, v: int)
    ensures v in KeepIndices(tokens, count) <==>
      1 <= v <= count && exists i :: 0 <= i < |tokens| && Atoi(tokens[i]) == v
  {
    var vs := Values(tokens);
    KeepValuesMembers(vs, count, v);
    if v in vs {
      var i :| 0 <= i < |vs| && vs[i] == v;
      assert Atoi(tokens[i]) == v;
    }
  }

  /** The indices of the members not kept, from the highest down. */
  function DeleteIndices(count: nat, keep: seq<int>): (d: seq<nat>)
    ensures |d| <= count
  {
    if count == 0 then []
    else (if count in keep then [] else [count]) + DeleteIndices(count - 1, keep)
  }

  /** An index is to be deleted exactly when it names a member and is not kept. */
  lemma {:induction false} DeleteIndicesMembers(count: nat, keep: seq<int>, j: int)
    ensures j in DeleteIndices(count, keep) <==> 1 <= j <= count && j !in keep
  {
    if count > 0 {
      DeleteIndicesMembers(count - 1, keep, j);
    }
  }

  /** The delete list runs from the highest index down. */
  lemma {:induction false} DeleteIndicesDescending(count: nat, keep: seq<int>, a: nat, b: nat)
    requires a < b < |DeleteIndices(count, keep)|
    ensures DeleteIndices(count, keep)[a] > DeleteIndices(count, keep)[b]
  {
    var d := DeleteIndices(count, keep);
    var rest := DeleteIndices(count - 1, keep);
    if count in keep {
      assert d == rest;
      DeleteIndicesDescending(count - 1, keep, a, b);
    } else if a == 0 {
      assert d[b] == rest[b - 1];
      DeleteIndicesMembers(count - 1, keep, rest[b - 1]);
    } else {
      assert d[a] == rest[a - 1] && d[b] == rest[b - 1];
      DeleteIndicesDescending(count - 1, keep, a - 1, b - 1);
    }
  }

  /** When some index of 1..count is kept, the delete list is shorter than the group:
      at least one member survives. */
  lemma {:induction false} DeleteIndicesKeepsOne(count: nat, keep: seq<int>, v: int)
    requires v in keep && 1 <= v <= count
    ensures |DeleteIndices(count, keep)| < count
  {
    if count !in keep {
      DeleteIndicesKeepsOne(count - 1, keep, v);
    }
  }

  /** The delete list loop as written: walk the members from index 1, look the index up
      in the keep list (stopping at the first match), and put every member that is not
      kept in front of the list built so far. */
  method DeleteListLoop(count: nat, keep: seq<int>) returns (toDelete: seq<nat>)
    ensures toDelete == DeleteIndices(count, keep)
  {
    toDelete := [];
    var index := 1;
    while index <= count
      invariant 1 <= index <= count + 1
      invariant toDelete == DeleteIndices(index - 1, keep)
      decreases count + 1 - index
    {
      var found := false;
      var i := 0;
      while i < |keep| && !found
        invariant 0 <= i <= |keep|
        invariant found <==> index in keep[..i]
      {
        assert keep[..i + 1] == keep[..i] + [keep[i]];
        if index == keep[i] {
          found := true;
        }
        i := i + 1;
      }
      assert found <==> index in keep by {
        if !found {
          assert keep[..i] == keep;
        }
      }
      if !found {
        toDelete := [index] + toDelete;
      } else {
        assert DeleteIndices(index, keep) == [] + toDelete == toDelete;
      }
      index := index + 1;
    }
  }

  /** "0," holds the one token "0"; "abc" and "3, 1" split as expected. */
  lemma TokensExamples()
    ensures Tokens("0,") == ["0"]
    ensures Tokens("abc") == ["abc"]
    ensures Tokens("3, 1") == ["3", " 1"]
  {
    TokensFromCommaFree("0", ",", "");
    assert "0" + "," == "0," && "" + "0" == "0";
    assert ","[1..] == "";
    assert TokensFrom(",", "0") == ["0"] + TokensFrom("", "") == ["0"];
    TokensJoin(["abc"]);
    TokensJoin(["3", " 1"]);
    assert Join(["3", " 1"]) == "3" + "," + " 1" == "3, 1";
  }

  /** One token is kept exactly when it reads as an index in 1..count. */
  lemma KeepIndicesSingle(t: string, count: int)
    ensures KeepIndices([t], count) == if 1 <= Atoi(t) <= count then [Atoi(t)] else []
  {
    assert [t][1..] == [];
  }

  /** "0" reads as 0. */
  lemma AtoiZero()
    ensures Atoi("0") == 0
  {
    AtoiDecimal("", 0, "");
    assert "" + Decimal(0) + "" == "0";
  }

  /** "abc" has no digit and reads as 0. */
  lemma AtoiLetters()
    ensures Atoi("abc") == 0
  {
    assert SkipSpace("abc") == "abc";
    AtoiNoDigits("abc");
  }

  /** "0," and "abc" keep nothing: "0" reads as 0 and "abc" has no digit. */
  lemma NothingKeptExamples(count: int)
    ensures KeepIndices(Tokens("0,"), count) == []
    ensures KeepIndices(Tokens("abc"), count) == []
  {
    TokensExamples();
    AtoiZero();
    AtoiLetters();
    KeepIndicesSingle("0", count);
    KeepIndicesSingle("abc", count);
  }
}
