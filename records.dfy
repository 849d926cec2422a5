/**
 * Splitting a text line into tab-separated fields, the way the readers in
 * src/ActorGraph/ActorGraph.cpp and src/pathfinder.cpp do it with repeated
 * `getline(ss, str, '\t')` on a string stream, and reading a decimal year.
 *
 * Such a loop yields the pieces between tabs, except that an empty last piece
 * (an empty line, or a line that ends in a tab) is not produced: `getline`
 * fails when it reaches the end of the stream without extracting anything.
 */
module Records {

  const TAB: char := '\t'

  /** The pieces of `s` between tabs; always at least one (possibly empty) piece. */
  function Split(s: string): (r: seq<string>)
    ensures |r| >= 1
    decreases |s|
  {
    if s == [] then [""]
    else
      var init := Split(s[..|s| - 1]);
      var c := s[|s| - 1];
      if c == TAB then init + [""]
      else init[..|init| - 1] + [init[|init| - 1] + [c]]
  }

  /** The fields the `getline` loop pushes into its record vector. */
  function Fields(s: string): seq<string> {
    var pieces := Split(s);
    if pieces[|pieces| - 1] == "" then pieces[..|pieces| - 1] else pieces
  }

  /** The pieces joined back together with tabs. */
  function JoinTabs(fs: seq<string>): string
    requires |fs| >= 1
    decreases |fs|
  {
    if |fs| == 1 then fs[0] else JoinTabs(fs[..|fs| - 1]) + [TAB] + fs[|fs| - 1]
  }

  predicate NoTab(s: string) {
    forall i :: 0 <= i < |s| ==> s[i] != TAB
  }

  /** No piece contains a tab. */
  lemma {:induction false} SplitHasNoTabs(s: string)
    ensures forall k :: 0 <= k < |Split(s)| ==> NoTab(Split(s)[k])
    decreases |s|
  {
    if s != [] {
      SplitHasNoTabs(s[..|s| - 1]);
    }
  }

  /** Extending the last piece by one character extends the joined line by it. */
  lemma JoinExtendLast(fs: seq<string>, c: char)
    requires |fs| >= 1
    ensures JoinTabs(fs[..|fs| - 1] + [fs[|fs| - 1] + [c]]) == JoinTabs(fs) + [c]
  {
    var r := fs[..|fs| - 1] + [fs[|fs| - 1] + [c]];
    if |fs| > 1 {
      assert r[..|r| - 1] == fs[..|fs| - 1];
    }
  }

  /** Joining the pieces gives back the line: nothing is lost by splitting. */
  lemma {:induction false} JoinSplit(s: string)
    ensures JoinTabs(Split(s)) == s
    decreases |s|
  {
    if s != [] {
      var init := Split(s[..|s| - 1]);
      JoinSplit(s[..|s| - 1]);
      var c := s[|s| - 1];
      if c == TAB {
        assert (init + [""])[..|init|] == init;
      } else {
        JoinExtendLast(init, c);
      }
      assert s == s[..|s| - 1] + [c];
    }
  }

  /** Splitting a tab-joined list of tab-free pieces gives back the pieces. */
  lemma {:induction false} SplitJoin(fs: seq<string>)
    requires |fs| >= 1
    requires forall k :: 0 <= k < |fs| ==> NoTab(fs[k])
    ensures Split(JoinTabs(fs)) == fs
    decreases |fs|, |fs[|fs| - 1]|
  {
    var last := fs[|fs| - 1];
    if |fs| == 1 {
      SplitOfTabFree(last);
    } else if last == "" {
      SplitJoin(fs[..|fs| - 1]);
      SplitJoinEmptyLast(fs);
    } else {
      var shorter := fs[..|fs| - 1] + [last[..|last| - 1]];
      SplitJoin(shorter);
      SplitJoinExtendLast(fs);
    }
  }

  /** The step for an empty last piece: it is what follows the last tab. */
  lemma SplitJoinEmptyLast(fs: seq<string>)
    requires |fs| >= 2 && fs[|fs| - 1] == ""
    requires Split(JoinTabs(fs[..|fs| - 1])) == fs[..|fs| - 1]
    ensures Split(JoinTabs(fs)) == fs
  {
    var init := fs[..|fs| - 1];
    assert JoinTabs(fs) == JoinTabs(init) + [TAB] + "";
    assert JoinTabs(init) + [TAB] + "" == JoinTabs(init) + [TAB];
    SplitAfterTab(JoinTabs(init));
    assert fs == init + [""];
  }

  /** The step for a non-empty last piece: its last character extends the piece before it. */
  lemma SplitJoinExtendLast(fs: seq<string>)
    requires |fs| >= 2 && fs[|fs| - 1] != "" && NoTab(fs[|fs| - 1])
    requires var last := fs[|fs| - 1];
             var shorter := fs[..|fs| - 1] + [last[..|last| - 1]];
             Split(JoinTabs(shorter)) == shorter
    ensures Split(JoinTabs(fs)) == fs
  {
    var last := fs[|fs| - 1];
    var c := last[|last| - 1];
    var shorter := fs[..|fs| - 1] + [last[..|last| - 1]];
    assert shorter[..|shorter| - 1] == fs[..|fs| - 1];
    JoinExtendLast(shorter, c);
    SplitAfterChar(JoinTabs(shorter), c);
    assert last[..|last| - 1] + [c] == last;
    assert fs == fs[..|fs| - 1] + [last];
  }

  /** Splitting a line with a tab at the end: one more, empty, piece. */
  lemma SplitAfterTab(s: string)
    ensures Split(s + [TAB]) == Split(s) + [""]
  {
    assert (s + [TAB])[..|s|] == s;
  }

  /** Splitting a line with one more non-tab character at the end. */
  lemma SplitAfterChar(s: string, c: char)
    requires c != TAB
    ensures var p := Split(s); Split(s + [c]) == p[..|p| - 1] + [p[|p| - 1] + [c]]
  {
    assert (s + [c])[..|s|] == s;
  }

  lemma {:induction false} SplitOfTabFree(s: string)
    requires NoTab(s)
    ensures Split(s) == [s]
    decreases |s|
  {
    if s != [] {
      SplitOfTabFree(s[..|s| - 1]);
      assert s == s[..|s| - 1] + [s[|s| - 1]];
    }
  }

  /**
   * A line written as tab-separated tab-free fields, the last one non-empty,
   * is read back as exactly those fields.
   */
  lemma FieldsOfJoin(fs: seq<string>)
    requires |fs| >= 1 && fs[|fs| - 1] != ""
    requires forall k :: 0 <= k < |fs| ==> NoTab(fs[k])
    ensures Fields(JoinTabs(fs)) == fs
  {
    SplitJoin(fs);
  }

  /**
   * The field-splitting loop: characters are collected into the current
   * field until a tab ends it; the final field is kept only if non-empty.
   */
  method SplitRecord(s: string) returns (record: seq<string>)
    ensures record == Fields(s)
  {
    record := [];
    var current := "";
    var i := 0;
    while i < |s|
      invariant 0 <= i <= |s|
      invariant record + [current] == Split(s[..i])
    {
      assert s[..i + 1][..i] == s[..i];
      if s[i] == TAB {
        record := record + [current];
        current := "";
      } else {
        current := current + [s[i]];
      }
      i := i + 1;
    }
    assert s[..i] == s;
    if current != "" {
      record := record + [current];
    }
  }

  /** `'0'` to `'9'` only, and at least one of them. */
  predicate IsDigits(s: string) {
    |s| > 0 && forall i :: 0 <= i < |s| ==> '0' <= s[i] <= '9'
  }

  /** The decimal value of a digit string (leading zeros allowed). */
  function DigitsValue(s: string): (v: nat)
    requires forall i :: 0 <= i < |s| ==> '0' <= s[i] <= '9'
    decreases |s|
  {
    if s == [] then 0
    else DigitsValue(s[..|s| - 1]) * 10 + (s[|s| - 1] as int - '0' as int)
  }

  /** The decimal digits of a number, most significant first. */
  function NatToDigits(n: nat): (s: string)
    ensures IsDigits(s)
    decreases n
  {
    var d := [(('0' as int) + n % 10) as char];
    if n < 10 then d else NatToDigits(n / 10) + d
  }

  /** Reading back the digits of a number gives the number. */
  lemma {:induction false} DigitsRoundTrip(n: nat)
    ensures DigitsValue(NatToDigits(n)) == n
    decreases n
  {
    var s := NatToDigits(n);
    if n >= 10 {
      DigitsRoundTrip(n / 10);
      assert s[..|s| - 1] == NatToDigits(n / 10);
    }
  }
}
