/** The two java.lang.String operations the to-do list relies on:
    `trim()` (used to validate the form fields) and `split(",")`
    (used to cut a saved line back into its columns). */
module JavaText {

  /** `String.trim()` removes every leading and trailing char whose code
      is at most U+0020 (space and all control characters). */
  predicate IsTrimmable(c: char) {
    c <= ' '
  }

  /** The number of trimmable chars at the start of `s`: the first kept position. */
  function TrimmedStart(s: string): (st: nat)
    ensures st <= |s|
    ensures forall k :: 0 <= k < st ==> IsTrimmable(s[k])
    ensures st == |s| || !IsTrimmable(s[st])
  {
    if s != [] && IsTrimmable(s[0]) then 1 + TrimmedStart(s[1..]) else 0
  }

  /** The length of `s` without its trimmable chars at the end: one past
      the last kept position. */
  function TrimmedEnd(s: string): (len: nat)
    ensures len <= |s|
    ensures forall k :: len <= k < |s| ==> IsTrimmable(s[k])
    ensures len == 0 || !IsTrimmable(s[len - 1])
  {
    if s != [] && IsTrimmable(s[|s| - 1]) then TrimmedEnd(s[..|s| - 1]) else |s|
  }

  /** `String.trim()`: the text between the first and the last char that
      is not trimmable, or the empty text if there is none. */
  function Trim(s: string): (r: string)
    ensures var st := TrimmedStart(s); st + |r| <= |s| && r == s[st..st + |r|]
    ensures forall k :: TrimmedStart(s) + |r| <= k < |s| ==> IsTrimmable(s[k])
    ensures r == [] <==> forall k :: 0 <= k < |s| ==> IsTrimmable(s[k])
    ensures r != [] ==> !IsTrimmable(r[0]) && !IsTrimmable(r[|r| - 1])
  {
    var st := TrimmedStart(s);
    var len := TrimmedEnd(s);
    if st == |s| then [] else s[st..len]
  }

  /** A text whose ends are not trimmable is left as it is. */
  lemma TrimUntrimmable(s: string)
    requires s != [] ==> !IsTrimmable(s[0]) && !IsTrimmable(s[|s| - 1])
    ensures Trim(s) == s
  {
  }

  /** Trimming only removes chars: a char absent from `s` is absent from `Trim(s)`. */
  lemma TrimKeepsOut(s: string, c: char)
    requires c !in s
    ensures c !in Trim(s)
  {
  }

  /** Trimming twice is trimming once. */
  lemma TrimIdempotent(s: string)
    ensures Trim(Trim(s)) == Trim(s)
  {
    TrimUntrimmable(Trim(s));
  }

  /** The position of the first occurrence of `c` in `s`. */
  function IndexOf(s: string, c: char): (k: nat)
    requires c in s
    ensures k < |s| && s[k] == c && c !in s[..k]
  {
    if s[0] == c then 0 else 1 + IndexOf(s[1..], c)
  }

  /** The fields joined back together with `sep` between neighbours. */
  function JoinWith(fields: seq<string>, sep: char): string {
    if fields == [] then []
    else if |fields| == 1 then fields[0]
    else fields[0] + [sep] + JoinWith(fields[1..], sep)
  }

  /** Cuts `s` at every occurrence of `sep`, keeping every field, empty or not. */
  function SplitAll(s: string, sep: char): (fields: seq<string>)
    ensures |fields| >= 1
    ensures |fields| == 1 <==> sep !in s
    ensures forall k :: 0 <= k < |fields| ==> sep !in fields[k]
    ensures JoinWith(fields, sep) == s
    decreases |s|
  {
    if sep !in s then [s]
    else
      var k := IndexOf(s, sep);
      var rest := SplitAll(s[k + 1..], sep);
      assert s == s[..k] + [sep] + s[k + 1..];
      [s[..k]] + rest
  }

  /** Removes the empty fields at the end of `fields`, as `split` does. */
  function DropTrailingEmpty(fields: seq<string>): (r: seq<string>)
    ensures |r| <= |fields| && r == fields[..|r|]
    ensures r == [] || r[|r| - 1] != []
    ensures forall k :: |r| <= k < |fields| ==> fields[k] == []
  {
    if fields != [] && fields[|fields| - 1] == [] then DropTrailingEmpty(fields[..|fields| - 1])
    else fields
  }

  /** `s.split(",")` in Java: when `s` holds no comma the answer is `s`
      itself (even when `s` is empty); otherwise `s` is cut at every comma
      and the trailing empty fields are removed, while leading and inner
      empty fields stay. */
  function JavaSplit(s: string): (fields: seq<string>)
    ensures forall k :: 0 <= k < |fields| ==> ',' !in fields[k]
    ensures ',' !in s ==> fields == [s]
    ensures ',' in s ==> fields == [] || fields[|fields| - 1] != []
    ensures var all := SplitAll(s, ',');
              |fields| <= |all| && fields == all[..|fields|] &&
              forall k :: |fields| <= k < |all| ==> all[k] == []
  {
    var all := SplitAll(s, ',');
    if |all| == 1 then all else DropTrailingEmpty(all)
  }

  /** Splitting a join gives back the fields, provided none holds the separator. */
  lemma {:induction false} SplitAllJoinWith(fields: seq<string>, sep: char)
    requires fields != []
    requires forall k :: 0 <= k < |fields| ==> sep !in fields[k]
    ensures SplitAll(JoinWith(fields, sep), sep) == fields
  {
    if |fields| > 1 {
      var s := JoinWith(fields, sep);
      var head := fields[0];
      assert s == head + [sep] + JoinWith(fields[1..], sep);
      assert s[|head|] == sep;
      var k := IndexOf(s, sep);
      assert s[..k] == head;
      assert s[k + 1..] == JoinWith(fields[1..], sep);
      SplitAllJoinWith(fields[1..], sep);
    }
  }

  /** Every char of a field is a char of the join. */
  lemma {:induction false} FieldInJoin(fields: seq<string>, sep: char, k: nat, c: char)
    requires k < |fields| && c in fields[k]
    ensures c in JoinWith(fields, sep)
  {
    if |fields| > 1 {
      assert JoinWith(fields, sep) == fields[0] + [sep] + JoinWith(fields[1..], sep);
      if k > 0 {
        FieldInJoin(fields[1..], sep, k - 1, c);
      }
    }
  }

  /** Splitting only cuts: a char absent from `s` is absent from every field of `split(",")`. */
  lemma JavaSplitKeepsOut(s: string, c: char)
    requires c !in s
    ensures forall k :: 0 <= k < |JavaSplit(s)| ==> c !in JavaSplit(s)[k]
  {
    var all := SplitAll(s, ',');
    forall k | 0 <= k < |JavaSplit(s)|
      ensures c !in JavaSplit(s)[k]
    {
      if c in all[k] {
        FieldInJoin(all, ',', k, c);
      }
    }
  }

  /** Java's split gives back joined fields when at least two are joined,
      none holds a comma and the last one is not empty. */
  lemma JavaSplitJoinWith(fields: seq<string>)
    requires |fields| >= 2
    requires forall k :: 0 <= k < |fields| ==> ',' !in fields[k]
    requires fields[|fields| - 1] != []
    ensures JavaSplit(JoinWith(fields, ',')) == fields
  {
    SplitAllJoinWith(fields, ',');
  }
}
