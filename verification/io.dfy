/** The logic inside the `IO` class: reading a menu choice. Prompts and
    printing are console output and are not modelled. */
module IO {

  /** Python's `str.isspace()` on the ASCII range. */
  predicate IsSpace(c: char) {
    c == ' ' || 9 <= c as int <= 13 || 28 <= c as int <= 31
  }

  predicate AllSpace(s: string) {
    forall k :: 0 <= k < |s| ==> IsSpace(s[k])
  }

  /** Drops leading whitespace. */
  function StripLeft(s: string): (r: string)
    ensures |r| <= |s|
    decreases |s|
  {
    if |s| > 0 && IsSpace(s[0]) then StripLeft(s[1..]) else s
  }

  /** Drops trailing whitespace. */
  function StripRight(s: string): (r: string)
    ensures |r| <= |s|
    decreases |s|
  {
    if |s| > 0 && IsSpace(s[|s| - 1]) then StripRight(s[..|s| - 1]) else s
  }

  /** `str.strip()`. */
  function Strip(s: string): (r: string)
    ensures |r| <= |s|
  {
    StripRight(StripLeft(s))
  }

  /** What `StripLeft` drops is all whitespace, the rest is a suffix of the
      input, and that suffix does not start with whitespace. */
  lemma {:induction false} StripLeftSpec(s: string)
    ensures StripLeft(s) == s[|s| - |StripLeft(s)|..]
    ensures AllSpace(s[..|s| - |StripLeft(s)|])
    ensures |StripLeft(s)| > 0 ==> !IsSpace(StripLeft(s)[0])
    decreases |s|
  {
    if |s| > 0 && IsSpace(s[0]) {
      StripLeftSpec(s[1..]);
      var n := |s| - |StripLeft(s)|;
      assert s[..n] == [s[0]] + s[1..][..n - 1];
    }
  }

  /** What `StripRight` drops is all whitespace, the rest is a prefix of the
      input, and that prefix does not end with whitespace. */
  lemma {:induction false} StripRightSpec(s: string)
    ensures StripRight(s) == s[..|StripRight(s)|]
    ensures AllSpace(s[|StripRight(s)|..])
    ensures |StripRight(s)| > 0 ==> !IsSpace(StripRight(s)[|StripRight(s)| - 1])
    decreases |s|
  {
    if |s| > 0 && IsSpace(s[|s| - 1]) {
      StripRightSpec(s[..|s| - 1]);
      var n := |StripRight(s)|;
      assert s[n..] == s[..|s| - 1][n..] + [s[|s| - 1]];
    }
  }

  /** `Strip` cuts its input into leading whitespace, the result and
      trailing whitespace, and the result with its tail does not start with
      whitespace. */
  lemma StripSplit(s: string) returns (p: string, q: string)
    ensures s == p + (Strip(s) + q)
    ensures AllSpace(p) && AllSpace(q)
    ensures |Strip(s) + q| > 0 ==> !IsSpace((Strip(s) + q)[0])
    ensures |Strip(s)| > 0 ==> !IsSpace(Strip(s)[|Strip(s)| - 1])
  {
    var left := StripLeft(s);
    var r := StripRight(left);
    StripLeftSpec(s);
    StripRightSpec(left);
    p, q := CutBothEnds(s, left, r);
  }

  /** Cutting the suffix `left` out of `s` and the prefix `r` out of `left`
      leaves a head `p` and a tail `q` around `r`. */
  lemma CutBothEnds(s: string, left: string, r: string) returns (p: string, q: string)
    requires |left| <= |s| && left == s[|s| - |left|..]
    requires |r| <= |left| && r == left[..|r|]
    ensures p == s[..|s| - |left|] && q == left[|r|..]
    ensures s == p + (r + q) && left == r + q
  {
    p := s[..|s| - |left|];
    q := left[|r|..];
    assert left == r + q;
    assert s == p + left;
  }

  /** The result of `Strip` has no whitespace at either end, and it is empty
      exactly when the input is all whitespace. */
  lemma StripSpec(s: string)
    ensures |Strip(s)| > 0 ==> !IsSpace(Strip(s)[0]) && !IsSpace(Strip(s)[|Strip(s)| - 1])
    ensures |Strip(s)| == 0 <==> AllSpace(s)
  {
    var p, q := StripSplit(s);
    StripShape(s, p, Strip(s) + q, Strip(s), q);
  }

  /** Whitespace `p`, then `r`, then whitespace `q`, with `r + q` not
      starting with whitespace: `r` is empty exactly when `s` is all
      whitespace. */
  lemma StripShape(s: string, p: string, left: string, r: string, q: string)
    requires s == p + left && left == r + q
    requires AllSpace(p) && AllSpace(q)
    requires |left| > 0 ==> !IsSpace(left[0])
    ensures |r| > 0 ==> !IsSpace(r[0])
    ensures |r| == 0 <==> AllSpace(s)
  {
    if |left| > 0 {
      assert s[|p|] == left[0];
    }
    if |r| == 0 {
      assert s == p + q;
    }
  }

  lemma {:induction false} StripLeftPadded(p: string, t: string)
    requires AllSpace(p)
    requires |t| > 0 ==> !IsSpace(t[0])
    ensures StripLeft(p + t) == t
    decreases |p|
  {
    if |p| > 0 {
      assert (p + t)[1..] == p[1..] + t;
      StripLeftPadded(p[1..], t);
    } else {
      assert p + t == t;
    }
  }

  lemma {:induction false} StripRightPadded(t: string, q: string)
    requires AllSpace(q)
    requires |t| > 0 ==> !IsSpace(t[|t| - 1])
    ensures StripRight(t + q) == t
    decreases |q|
  {
    if |q| > 0 {
      assert (t + q)[..|t + q| - 1] == t + q[..|q| - 1];
      StripRightPadded(t, q[..|q| - 1]);
    } else {
      assert t + q == t;
    }
  }

  /** Stripping removes exactly the surrounding whitespace: padding any
      whitespace-free-ended text with whitespace strips back to that text. */
  lemma StripPadded(p: string, t: string, q: string)
    requires AllSpace(p) && AllSpace(q)
    requires |t| > 0 ==> !IsSpace(t[0]) && !IsSpace(t[|t| - 1])
    ensures Strip(p + t + q) == t
  {
    if |t| > 0 {
      assert p + t + q == p + (t + q);
      StripLeftPadded(p, t + q);
      StripRightPadded(t, q);
    } else {
      assert p + t + q == p + q;
      assert AllSpace(p + q);
      StripSpec(p + q);
    }
  }

  /** Stripping twice is stripping once. */
  lemma StripIdempotent(s: string)
    ensures Strip(Strip(s)) == Strip(s)
  {
    StripSpec(s);
    StripPadded("", Strip(s), "");
    assert "" + Strip(s) + "" == Strip(s);
  }

  /** The five menu options. */
  predicate ValidChoice(choice: string) {
    choice in ["1", "2", "3", "4", "5"]
  }

  /** `input_menu_choice`: the stripped line is returned whether or not it
      names an option; the flag says whether the range error was reported. */
  function InputMenuChoice(line: string): (r: (string, bool))
    ensures r.0 == Strip(line)
    ensures r.1 <==> |r.0| == 1 && '1' <= r.0[0] <= '5'
  {
    var choice := Strip(line);
    assert |choice| == 1 ==> choice == [choice[0]];
    (choice, ValidChoice(choice))
  }

  /** A digit from 1 to 5 with any whitespace around it is accepted as that
      digit. */
  lemma MenuChoicePadded(p: string, d: char, q: string)
    requires AllSpace(p) && AllSpace(q)
    requires '1' <= d <= '5'
    ensures InputMenuChoice(p + [d] + q) == ([d], true)
  {
    StripPadded(p, [d], q);
  }
}
