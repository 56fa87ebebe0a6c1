/** Domain names as text and as labels: when one lies below another, and what the
    stored patterns mean for a name. */
module DomainNames {
  import opened DomainTrie
  import opened Wildcard

  /** The name with these labels, last label first. */
  function Named(path: Path): string
    requires |path| >= 1
    decreases |path|
  {
    if |path| == 1 then path[0] else Named(path[1..]) + "." + path[0]
  }

  lemma {:induction false} LabelsKeepName(s: string, tail: string)
    ensures Named(LabelsOnto(s, tail)) == s + tail
    decreases |s|
  {
    if s != [] {
      var init, c := s[..|s| - 1], s[|s| - 1];
      if c == '.' {
        LabelsKeepName(init, "");
        assert ([tail] + LabelsOnto(init, ""))[1..] == LabelsOnto(init, "");
        assert s + tail == init + "." + tail;
      } else {
        LabelsKeepName(init, [c] + tail);
        assert s + tail == init + ([c] + tail);
      }
    }
  }

  lemma {:induction false} LabelsAreDotFree(s: string, tail: string, i: nat)
    requires DotFree(tail) && i < |LabelsOnto(s, tail)|
    ensures DotFree(LabelsOnto(s, tail)[i])
    decreases |s|
  {
    if s != [] {
      var init, c := s[..|s| - 1], s[|s| - 1];
      if c == '.' {
        if i > 0 { LabelsAreDotFree(init, "", i - 1); }
      } else {
        LabelsAreDotFree(init, [c] + tail, i);
      }
    }
  }

  lemma {:induction false} LabelsOfJoin(x: string, s: string, tail: string)
    ensures LabelsOnto(x + "." + s, tail) == LabelsOnto(s, tail) + Labels(x)
    decreases |s|
  {
    var whole := x + "." + s;
    var init := whole[..|whole| - 1];
    if s == [] {
      assert init == x;
    } else {
      assert init == x + "." + s[..|s| - 1];
      if s[|s| - 1] == '.' {
        LabelsOfJoin(x, s[..|s| - 1], "");
      } else {
        LabelsOfJoin(x, s[..|s| - 1], [s[|s| - 1]] + tail);
      }
    }
  }

  lemma {:induction false} NameOfJoin(p: Path, q: Path)
    requires |p| >= 1 && |q| >= 1
    ensures Named(p + q) == Named(q) + "." + Named(p)
    decreases |p|
  {
    assert (p + q)[1..] == p[1..] + q;
    if |p| == 1 {
      assert p[1..] + q == q;
    } else {
      NameOfJoin(p[1..], q);
    }
  }

  lemma {:induction false} OneLabel(s: string, tail: string)
    requires DotFree(s)
    ensures LabelsOnto(s, tail) == [s + tail]
    decreases |s|
  {
    if s != [] {
      OneLabel(s[..|s| - 1], [s[|s| - 1]] + tail);
      assert s[..|s| - 1] + ([s[|s| - 1]] + tail) == s + tail;
    } else {
      assert s + tail == tail;
    }
  }

  /** `q` is something, a dot, and `d`. */
  predicate Below(q: string, d: string) {
    var dot := |q| - |d| - 1;
    dot >= 0 && q[dot] == '.' && q[dot + 1..] == d
  }

  /** A path extends another exactly when the name lies below the other. */
  lemma ExtendsIffBelow(q: string, d: string)
    ensures Labels(d) < Labels(q) <==> Below(q, d)
    ensures Labels(q) == Labels(d) <==> q == d
    ensures Below(q, d) ==> Labels(q) == Labels(d) + Labels(q[..|q| - |d| - 1])
  {
    LabelsKeepName(q, "");
    LabelsKeepName(d, "");
    assert q + "" == q && d + "" == d;
    if Below(q, d) {
      var x := q[..|q| - |d| - 1];
      assert q == x + "." + d;
      LabelsOfJoin(x, d, "");
    }
    if Labels(d) < Labels(q) {
      var more := Labels(q)[|Labels(d)|..];
      assert Labels(q) == Labels(d) + more;
      NameOfJoin(Labels(d), more);
      assert q == Named(more) + "." + d;
    }
  }

  lemma ExactMeans<T>(q: string, d: string, v: T)
    ensures Matches(Pattern(Labels(d), Exact, v), Labels(q)) <==> q == d
  {
    ExtendsIffBelow(q, d);
  }

  lemma DotMeans<T>(q: string, d: string, v: T)
    ensures Matches(Pattern(Labels(d), Dot, v), Labels(q)) <==> Below(q, d)
  {
    ExtendsIffBelow(q, d);
  }

  lemma StarMeans<T>(q: string, d: string, v: T)
    ensures Matches(Pattern(Labels(d), Star, v), Labels(q)) <==> Below(q, d) && DotFree(q[..|q| - |d| - 1])
  {
    ExtendsIffBelow(q, d);
    if Below(q, d) {
      var x := q[..|q| - |d| - 1];
      if DotFree(x) {
        OneLabel(x, "");
      } else if |Labels(x)| == 1 {
        assert x + "" == x;
        LabelsKeepName(x, "");
        LabelsAreDotFree(x, "", 0);
      }
    }
  }

  // ---------------------------------------------------------------------
  // Surrounding blanks.
  // ---------------------------------------------------------------------

  /** No blanks around the text, as parsing leaves rule payloads. */
  predicate Tidy(payload: string) {
    Trim(payload) == payload
  }

  lemma TidyEnds(s: string)
    ensures Tidy(s) <==> s == [] || (!IsSpace(s[0]) && !IsSpace(s[|s| - 1]))
  {
    TrimLeftIsSuffix(s);
    TrimRightIsPrefix(TrimLeft(s));
    if s != [] && IsSpace(s[0]) {
      TrimLeftIsSuffix(s[1..]);
    } else if s != [] && IsSpace(s[|s| - 1]) {
      TrimRightIsPrefix(s[..|s| - 1]);
    }
  }

  lemma {:induction false} TrimLeftIsSuffix(s: string)
    ensures |TrimLeft(s)| <= |s|
    decreases |s|
  {
    if s != [] && IsSpace(s[0]) { TrimLeftIsSuffix(s[1..]); }
  }

  lemma {:induction false} TrimRightIsPrefix(s: string)
    ensures |TrimRight(s)| <= |s|
    decreases |s|
  {
    if s != [] && IsSpace(s[|s| - 1]) { TrimRightIsPrefix(s[..|s| - 1]); }
  }

  lemma TidyBehind(mark: string, s: string)
    requires mark in {"+.", "*."} && s != [] && !IsSpace(s[|s| - 1])
    ensures Tidy(mark + s)
  {
    TidyEnds(mark + s);
  }

  lemma LowerOfMarked(mark: string, s: string)
    requires mark in {"+.", "*."}
    ensures Lower(mark + s) == mark + Lower(s) && (mark + Lower(s))[2..] == Lower(s)
  {
  }

  /** Trimming leaves nothing to trim. */
  lemma TrimIsTidy(s: string)
    ensures Tidy(Trim(s))
  {
    TrimLeftStops(s);
    TrimRightStops(TrimLeft(s));
    TidyEnds(Trim(s));
  }

  lemma {:induction false} TrimLeftStops(s: string)
    ensures TrimLeft(s) != [] ==> !IsSpace(TrimLeft(s)[0])
    decreases |s|
  {
    if s != [] && IsSpace(s[0]) { TrimLeftStops(s[1..]); }
  }

  lemma {:induction false} TrimRightStops(s: string)
    ensures TrimRight(s) <= s
    ensures TrimRight(s) != [] ==> !IsSpace(TrimRight(s)[|TrimRight(s)| - 1])
    decreases |s|
  {
    if s != [] && IsSpace(s[|s| - 1]) { TrimRightStops(s[..|s| - 1]); }
  }
}
