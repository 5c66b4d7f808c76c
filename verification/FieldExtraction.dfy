/** `distill_string` and `replace_char`: cutting a field out of a string, and replacing a character. */
module FieldExtraction {
  import opened Wrappers
  import opened Machine

  // ----- string::find -----

  predicate MatchesAt(src: string, sep: string, i: nat) {
    i + |sep| <= |src| && src[i..i + |sep|] == sep
  }

  /** The first occurrence at or after a position; an empty string occurs everywhere up to the end. */
  function Find(src: string, sep: string, from: nat): (r: Option<nat>)
    ensures r.Some? ==> from <= r.value && MatchesAt(src, sep, r.value)
    ensures forall i: nat :: from <= i && (r.Some? ==> i < r.value) ==> !MatchesAt(src, sep, i)
    decreases |src| - from
  {
    if from + |sep| > |src| then None
    else if MatchesAt(src, sep, from) then Some(from)
    else Find(src, sep, from + 1)
  }

  // ----- the leftmost split -----

  function Split(src: string, sep: string): (fields: seq<string>)
    requires sep != ""
    ensures fields != []
    decreases |src|
  {
    match Find(src, sep, 0)
    case None => [src]
    case Some(k) => [src[..k]] + Split(src[k + |sep|..], sep)
  }

  function Join(fields: seq<string>, sep: string): string {
    if fields == [] then "" else if |fields| == 1 then fields[0] else fields[0] + sep + Join(fields[1..], sep)
  }

  /** A separator after the field occurs first where the field ends. */
  ghost predicate EndsAtSeparator(field: string, sep: string) {
    forall i: nat :: MatchesAt(field + sep, sep, i) ==> i >= |field|
  }

  ghost predicate Free(field: string, sep: string) {
    forall i: nat :: !MatchesAt(field, sep, i)
  }

  /** Fields between separators, each as short as can be, from the left. */
  ghost predicate IsLeftmostSplit(fields: seq<string>, src: string, sep: string) {
    && fields != []
    && Join(fields, sep) == src
    && (forall i :: 0 <= i < |fields| - 1 ==> EndsAtSeparator(fields[i], sep))
    && Free(fields[|fields| - 1], sep)
  }

  lemma {:induction false} SplitIsLeftmost(src: string, sep: string)
    requires sep != ""
    ensures IsLeftmostSplit(Split(src, sep), src, sep)
    decreases |src|
  {
    match Find(src, sep, 0)
    case None =>
    case Some(k) =>
      var rest := src[k + |sep|..];
      var fields := Split(src, sep);
      SplitIsLeftmost(rest, sep);
      assert fields[1..] == Split(rest, sep);
      assert src == src[..k] + sep + rest;
      FirstField(src[..k], rest, sep);
      assert fields[|fields| - 1] == fields[1..][|fields| - 2];
      forall i | 0 <= i < |fields| - 1 ensures EndsAtSeparator(fields[i], sep) {
        if i > 0 {
          assert fields[i] == fields[1..][i - 1];
        }
      }
  }

  /** In a string that starts with a field and a separator, occurrences before the field's end are those in the two. */
  lemma SamePrefixMatches(field: string, rest: string, sep: string, i: nat)
    requires i <= |field|
    ensures MatchesAt(field + sep + rest, sep, i) == MatchesAt(field + sep, sep, i)
  {
    assert (field + sep + rest)[i..i + |sep|] == (field + sep)[i..i + |sep|];
  }

  lemma FirstField(field: string, rest: string, sep: string)
    requires sep != ""
    ensures Find(field + sep + rest, sep, 0) == Some(|field|) <==> EndsAtSeparator(field, sep)
  {
    var src := field + sep + rest;
    assert src[|field|..|field| + |sep|] == sep;
    forall i: nat | i <= |field| ensures MatchesAt(src, sep, i) == MatchesAt(field + sep, sep, i) {
      SamePrefixMatches(field, rest, sep, i);
    }
    assert MatchesAt(src, sep, |field|);
  }

  lemma SplitUnfolds(src: string, sep: string)
    requires sep != ""
    ensures Split(src, sep) ==
            match Find(src, sep, 0) { case None => [src] case Some(k) => [src[..k]] + Split(src[k + |sep|..], sep) }
  {
    hide Find, MatchesAt;
  }

  /** There is no other such list of fields. */
  lemma {:induction false} LeftmostSplitIsUnique(fields: seq<string>, src: string, sep: string)
    requires sep != "" && IsLeftmostSplit(fields, src, sep)
    ensures fields == Split(src, sep)
    decreases |fields|
  {
    hide Split, Find, MatchesAt;
    SplitUnfolds(src, sep);
    if |fields| == 1 {
      OnlyField(src, sep);
      assert fields == [src];
    } else {
      var first, rest := fields[0], Join(fields[1..], sep);
      assert EndsAtSeparator(first, sep);
      FirstField(first, rest, sep);
      assert src == first + sep + rest;
      assert src[..|first|] == first && src[|first| + |sep|..] == rest;
      assert fields[1..][|fields| - 2] == fields[|fields| - 1];
      LeftmostSplitIsUnique(fields[1..], rest, sep);
      assert fields == [first] + fields[1..];
    }
  }

  lemma OnlyField(src: string, sep: string)
    requires Free(src, sep)
    ensures Find(src, sep, 0).None?
  {
  }

  // ----- distill_string -----

  /** Does the source end in a separator, so that the last field is empty? */
  predicate EndsEmpty(src: string, sep: string)
    requires sep != ""
  {
    var fields := Split(src, sep);
    |fields| > 1 && fields[|fields| - 1] == ""
  }

  /** The fields that can be extracted: an empty one after a trailing separator cannot. */
  function Obtainable(src: string, sep: string): seq<string>
    requires sep != ""
  {
    var fields := Split(src, sep);
    if EndsEmpty(src, sep) then fields[..|fields| - 1] else fields
  }

  lemma SliceOfSuffix(s: string, start: nat, i: nat, n: nat)
    requires start + i + n <= |s|
    ensures s[start..][i..i + n] == s[start + i..start + i + n]
  {
  }

  lemma FindInSuffix(src: string, sep: string, start: nat)
    requires start <= |src|
    ensures Find(src[start..], sep, 0) ==
            match Find(src, sep, start) { case None => None case Some(k) => Some(k - start) }
  {
    forall i: nat ensures MatchesAt(src[start..], sep, i) == MatchesAt(src, sep, start + i) {
      if start + i + |sep| <= |src| {
        SliceOfSuffix(src, start, i, |sep|);
      }
    }
    var a, b := Find(src[start..], sep, 0), Find(src, sep, start);
    if a.Some? {
      assert MatchesAt(src, sep, start + a.value);
    }
    if b.Some? {
      assert MatchesAt(src[start..], sep, b.value - start);
    }
  }

  /** The fields from a field's start on: the last one ... */
  lemma SplitLast(src: string, sep: string, start: nat)
    requires sep != "" && start <= |src| && Find(src, sep, start).None?
    ensures Split(src[start..], sep) == [src[start..]]
  {
    hide Find, Split, MatchesAt;
    FindInSuffix(src, sep, start);
    SplitUnfolds(src[start..], sep);
  }

  /** ... or one up to the next separator, and those behind it. */
  lemma SplitNext(src: string, sep: string, start: nat, k: nat)
    requires sep != "" && start <= |src| && Find(src, sep, start) == Some(k)
    ensures k + |sep| <= |src|
    ensures Split(src[start..], sep) == [src[start..k]] + Split(src[k + |sep|..], sep)
  {
    hide Find, Split;
    assert MatchesAt(src, sep, k);
    FindInSuffix(src, sep, start);
    SplitUnfolds(src[start..], sep);
    assert src[start..][..k - start] == src[start..k];
    assert src[start..][k - start + |sep|..] == src[k + |sep|..];
  }

  /** On failure `dest` is left as it was. */
  method DistillString(src: string, dest: string, separator: string, index: uint32) returns (ok: bool, out: string)
    ensures separator != "" ==> (ok <==> index < |Obtainable(src, separator)|)
    ensures separator != "" && ok ==> out == Obtainable(src, separator)[index]
    ensures separator != "" ==>
              var fields := Split(src, separator);
              && (ok <==> index < |fields| && (index == 0 || |Join(fields[..index], separator)| + |separator| < |src|))
              && (ok ==> out == fields[index])
    ensures separator == "" ==> (ok <==> index == 0 || src != "") && (ok ==> out == "")
    ensures !ok ==> out == dest
  {
    hide Find, Split, Join;
    if separator != "" {
      ObtainableExactly(src, separator, index);
    }
    out := dest;
    var startPos: nat := 0;
    ghost var fields := if separator == "" then [] else Split(src, separator);
    assert src[0..] == src;
    for i := 0 to index
      invariant startPos <= |src| && (i > 0 ==> startPos < |src|) && out == dest
      invariant separator == "" ==> startPos == 0
      invariant separator != "" ==> i < |fields| && fields[i..] == Split(src[startPos..], separator)
    {
      var found := Find(src, separator, startPos);
      if found.None? {
        EmptyIsFound(src, separator, startPos);
        SplitLast(src, separator, startPos);
        return false, dest;
      }
      if separator != "" {
        SplitNext(src, separator, startPos, found.value);
      }
      EmptyIsFoundAtOnce(src, separator, startPos);
      startPos := found.value + |separator|;
      if separator != "" {
        assert fields[i + 1..] == fields[i..][1..] == Split(src[startPos..], separator);
      }
      if startPos >= |src| {
        if separator != "" {
          NothingLeft(separator);
          assert src[startPos..] == "";
          assert fields[i + 1..] == [""];
        }
        return false, dest;
      }
    }
    var endPos := Find(src, separator, startPos);
    match endPos
    case None =>
      EmptyIsFound(src, separator, startPos);
      SplitLast(src, separator, startPos);
      assert fields[index] == fields[index..][0];
      return true, src[startPos..];
    case Some(k) =>
      EmptyIsFoundAtOnce(src, separator, startPos);
      if separator != "" {
        SplitNext(src, separator, startPos, k);
        assert fields[index] == fields[index..][0];
      }
      return true, src[startPos..k];
  }

  lemma EmptyIsFound(src: string, sep: string, from: nat)
    requires from <= |src|
    ensures Find(src, sep, from).None? ==> sep != ""
  {
  }

  lemma EmptyIsFoundAtOnce(src: string, sep: string, from: nat)
    requires from <= |src|
    ensures sep == "" ==> Find(src, sep, from) == Some(from)
  {
  }

  lemma NothingLeft(sep: string)
    requires sep != ""
    ensures Split("", sep) == [""]
  {
  }

  /** Joining the obtainable fields gives the source back, up to one trailing separator. */
  lemma ObtainableJoin(src: string, sep: string)
    requires sep != ""
    ensures Join(Obtainable(src, sep), sep) + (if EndsEmpty(src, sep) then sep else "") == src
  {
    hide Split;
    SplitIsLeftmost(src, sep);
    if EndsEmpty(src, sep) {
      JoinLast(Split(src, sep), sep);
    }
  }

  lemma {:induction false} JoinLast(fields: seq<string>, sep: string)
    requires |fields| > 1
    ensures Join(fields, sep) == Join(fields[..|fields| - 1], sep) + sep + fields[|fields| - 1]
    decreases |fields|
  {
    var n := |fields| - 1;
    if n > 1 {
      JoinLast(fields[1..], sep);
      assert fields[1..][..n - 1] == fields[..n][1..];
    }
  }

  lemma {:induction false} JoinParts(fields: seq<string>, sep: string, i: nat)
    requires 0 < i < |fields|
    ensures Join(fields, sep) == Join(fields[..i], sep) + sep + Join(fields[i..], sep)
    decreases |fields|
  {
    if i > 1 {
      JoinParts(fields[1..], sep, i - 1);
      assert fields[1..][..i - 1] == fields[..i][1..] && fields[1..][i - 1..] == fields[i..];
    }
  }

  /** A field can be extracted exactly if it exists and the fields and separators before it do not use up the source. */
  lemma ObtainableExactly(src: string, sep: string, index: nat)
    requires sep != ""
    ensures var fields := Split(src, sep);
            index < |Obtainable(src, sep)| <==>
            index < |fields| && (index == 0 || |Join(fields[..index], sep)| + |sep| < |src|)
    ensures index < |Obtainable(src, sep)| ==> Obtainable(src, sep)[index] == Split(src, sep)[index]
  {
    hide Split;
    var fields := Split(src, sep);
    SplitIsLeftmost(src, sep);
    if 0 < index < |fields| {
      JoinParts(fields, sep, index);
      if index == |fields| - 1 {
        assert fields[index..] == [fields[index]];
      } else {
        JoinParts(fields[index..], sep, 1);
      }
    }
  }

  // ----- replace_char -----

  /** One round: the first occurrence of a character is overwritten. */
  function ReplaceFirst(s: string, oldChar: char, newChar: char): (t: string)
    ensures |t| == |s|
  {
    match Find(s, [oldChar], 0)
    case None => s
    case Some(k) => s[k := newChar]
  }

  function Rounds(s: string, oldChar: char, newChar: char, n: nat): string
    decreases n
  {
    if n == 0 then s else Rounds(ReplaceFirst(s, oldChar, newChar), oldChar, newChar, n - 1)
  }

  lemma CharFound(s: string, c: char)
    ensures Find(s, [c], 0).Some? <==> c in s
    ensures c in s ==> s[Find(s, [c], 0).value] == c && c !in s[..Find(s, [c], 0).value]
  {
    forall i: nat | i < |s| ensures MatchesAt(s, [c], i) == (s[i] == c) {
      assert s[i..i + 1] == [s[i]];
    }
  }

  /** The loop comes to an end exactly if the characters differ or there is nothing to replace. */
  lemma ReplaceEndsExactly(s: string, oldChar: char, newChar: char)
    ensures (exists n: nat :: oldChar !in Rounds(s, oldChar, newChar, n)) <==> oldChar != newChar || oldChar !in s
  {
    if oldChar == newChar {
      forall n: nat ensures Rounds(s, oldChar, newChar, n) == s {
        RoundsStuck(s, oldChar, n);
      }
      if oldChar !in s {
        assert oldChar !in Rounds(s, oldChar, newChar, 0);
      }
    } else {
      RoundsFinish(s, oldChar, newChar, 0);
    }
  }

  lemma {:induction false} RoundsStuck(s: string, c: char, n: nat)
    ensures Rounds(s, c, c, n) == s
    decreases n
  {
    CharFound(s, c);
    assert ReplaceFirst(s, c, c) == s;
    if n > 0 {
      RoundsStuck(s, c, n - 1);
    }
  }

  /** Each round moves the first occurrence to the right. */
  lemma {:induction false} RoundsFinish(s: string, oldChar: char, newChar: char, done: nat)
    requires oldChar != newChar && done <= |s| && oldChar !in s[..done]
    ensures exists n: nat :: oldChar !in Rounds(s, oldChar, newChar, n)
    decreases |s| - done
  {
    CharFound(s, oldChar);
    if oldChar !in s {
      assert oldChar !in Rounds(s, oldChar, newChar, 0);
    } else {
      var k := Find(s, [oldChar], 0).value;
      var t := ReplaceFirst(s, oldChar, newChar);
      assert t[..k + 1] == s[..k] + [newChar];
      RoundsFinish(t, oldChar, newChar, k + 1);
      var n: nat :| oldChar !in Rounds(t, oldChar, newChar, n);
      assert Rounds(s, oldChar, newChar, n + 1) == Rounds(t, oldChar, newChar, n);
    }
  }

  /** Where it ends, every occurrence is replaced and nothing else is touched. */
  method ReplaceChar(src: string, oldChar: char, newChar: char) returns (s: string)
    requires oldChar != newChar || oldChar !in src
    ensures |s| == |src|
    ensures forall i :: 0 <= i < |src| ==> s[i] == if src[i] == oldChar then newChar else src[i]
  {
    hide Find;
    s := src;
    var pos := Find(s, [oldChar], 0);
    CharFound(s, oldChar);
    ghost var done := 0;
    while pos.Some?
      invariant |s| == |src| && done <= |s| && (pos.Some? <==> oldChar in s)
      invariant pos.Some? ==> oldChar in src && done <= pos.value < |s| && s[pos.value] == oldChar && oldChar !in s[..pos.value]
      invariant forall i :: 0 <= i < done ==> s[i] == if src[i] == oldChar then newChar else src[i]
      invariant forall i :: done <= i < |s| ==> s[i] == src[i]
      decreases |s| - done
    {
      ghost var k := pos.value;
      assert forall i :: 0 <= i < k ==> s[i] in s[..k];
      s := s[..pos.value] + [newChar] + s[pos.value + 1..];
      done := k + 1;
      pos := Find(s, [oldChar], 0);
      CharFound(s, oldChar);
      assert pos.Some? ==> forall i :: 0 <= i < done ==> s[i] != oldChar;
    }
  }
}
