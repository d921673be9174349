/** The `-lb` option: a line break before every image row of the hex
    string, i.e. before each character whose index is a multiple of the
    number of hex characters per row. */
module LineBreak {
  import opened Arith

  /** Definition by rows: the string cut into chunks of `every`
      characters, each preceded by a line break. The first chunk gets one
      too, which is why the output starts with an empty line. */
  function Lines(s: string, every: nat): string
    requires every > 0
    decreases |s|
  {
    if |s| == 0 then ""
    else if |s| <= every then "\n" + s
    else "\n" + s[..every] + Lines(s[every..], every)
  }

  /** Appending one character to the input appends it to the output,
      preceded by a line break exactly when its index is a multiple of
      `every`: the rule the source's loop applies character by character. */
  lemma {:induction false} LinesSnoc(s: string, c: char, every: nat)
    requires every > 0
    ensures Lines(s + [c], every) == Lines(s, every) + (if |s| % every == 0 then "\n" else "") + [c]
    decreases |s|, 1
  {
    if |s| > every {
      LinesSnocRow(s, c, every);
    } else if |s| == every {
      SnocSlices(s, c, every);
      DivModUnique(|s|, every, 1, 0);
      assert Lines([c], every) == "\n" + [c];
      assert Lines(s + [c], every) == "\n" + s + Lines([c], every);
    } else {
      DivModUnique(|s|, every, 0, |s|);
      assert Lines(s + [c], every) == "\n" + (s + [c]);
      if |s| == 0 {
        assert s + [c] == [c];
      } else {
        assert Lines(s, every) == "\n" + s;
      }
    }
  }

  /** LinesSnoc past the first row: the first row is unchanged and the
      character goes to the rest. */
  lemma {:induction false} LinesSnocRow(s: string, c: char, every: nat)
    requires every > 0 && |s| > every
    ensures Lines(s + [c], every) == Lines(s, every) + (if |s| % every == 0 then "\n" else "") + [c]
    decreases |s|, 0
  {
    var head, rest := s[..every], s[every..];
    var brk: string := if |s| % every == 0 then "\n" else "";
    SnocSlices(s, c, every);
    ModShift(|rest|, every);
    LinesSnoc(rest, c, every);
    assert Lines(s + [c], every) == ("\n" + head) + (Lines(rest, every) + brk + [c]);
  }

  /** Cutting s + [c] at n <= |s| cuts s there and appends c to the tail. */
  lemma SnocSlices(s: string, c: char, n: nat)
    requires n <= |s|
    ensures (s + [c])[..n] == s[..n] && (s + [c])[n..] == s[n..] + [c]
  {
  }

  /** Dropping one row leaves the column of every later index unchanged. */
  lemma ModShift(n: nat, every: nat)
    requires every > 0
    ensures (n + every) % every == n % every
  {
    DivModUnique(n + every, every, n / every + 1, n % every);
  }

  /** The loop of `convertImage` under `-lb`: a break is appended before
      every character whose index is a multiple of 2 * rowStride. */
  method AddLineBreaks(hex: string, rowStride: nat) returns (lineBroken: string)
    requires rowStride > 0
    ensures lineBroken == Lines(hex, 2 * rowStride)
  {
    var lineBreakCount := rowStride * 2;
    lineBroken := "";
    var i := 0;
    while i < |hex|
      invariant 0 <= i <= |hex|
      invariant lineBroken == Lines(hex[..i], lineBreakCount)
    {
      LinesSnoc(hex[..i], hex[i], lineBreakCount);
      assert hex[..i + 1] == hex[..i] + [hex[i]];
      if i % lineBreakCount == 0 {
        lineBroken := lineBroken + "\n";
      }
      lineBroken := lineBroken + [hex[i]];
      i := i + 1;
    }
    assert hex[..i] == hex;
  }

  /** The text with every line break deleted. */
  function RemoveBreaks(t: string): (r: string)
    ensures '\n' !in r
  {
    if |t| == 0 then ""
    else (if t[0] == '\n' then "" else [t[0]]) + RemoveBreaks(t[1..])
  }

  lemma {:induction false} RemoveBreaksAppend(a: string, b: string)
    ensures RemoveBreaks(a + b) == RemoveBreaks(a) + RemoveBreaks(b)
  {
    if |a| > 0 {
      assert (a + b)[0] == a[0] && (a + b)[1..] == a[1..] + b;
      RemoveBreaksAppend(a[1..], b);
    } else {
      assert a + b == b;
    }
  }

  lemma {:induction false} RemoveBreaksNone(t: string)
    requires '\n' !in t
    ensures RemoveBreaks(t) == t
  {
    if |t| > 0 {
      RemoveBreaksNone(t[1..]);
    }
  }

  /** Deleting the line breaks gives the hex string back. */
  lemma {:induction false} RemoveBreaksLines(s: string, every: nat)
    requires every > 0 && '\n' !in s
    ensures RemoveBreaks(Lines(s, every)) == s
    decreases |s|
  {
    if 0 < |s| <= every {
      assert Lines(s, every) == "\n" + s + "";
      RemoveBreaksRow(s, "");
    } else if |s| > every {
      var head, rest := s[..every], s[every..];
      assert '\n' !in rest && '\n' !in head;
      RemoveBreaksLines(rest, every);
      RemoveBreaksRow(head, Lines(rest, every));
      assert head + rest == s;
    }
  }

  /** Deleting the breaks from one row and what follows it. */
  lemma RemoveBreaksRow(head: string, tail: string)
    requires '\n' !in head
    ensures RemoveBreaks("\n" + head + tail) == head + RemoveBreaks(tail)
  {
    var u := head + tail;
    assert "\n" + head + tail == ['\n'] + u;
    RemoveBreaksCons('\n', u);
    RemoveBreaksAppend(head, tail);
    RemoveBreaksNone(head);
  }

  lemma RemoveBreaksCons(c: char, t: string)
    ensures RemoveBreaks([c] + t) == (if c == '\n' then "" else [c]) + RemoveBreaks(t)
  {
    var u := [c] + t;
    assert u[0] == c && u[1..] == t;
  }

  /** One break per started row of `every` characters: the output length is
      n + ceil(n / every). */
  lemma {:induction false} LinesLength(s: string, every: nat)
    requires every > 0
    ensures |Lines(s, every)| == |s| + (|s| + every - 1) / every
    decreases |s|
  {
    if |s| == 0 {
      DivModUnique(every - 1, every, 0, every - 1);
    } else if |s| <= every {
      DivModUnique(|s| + every - 1, every, 1, |s| - 1);
    } else {
      var n := |s| - every;
      LinesLength(s[every..], every);
      DivShift(n + every - 1, every);
    }
  }

  /** Adding one row adds one to the quotient. */
  lemma DivShift(n: nat, every: nat)
    requires every > 0
    ensures (n + every) / every == n / every + 1
  {
    DivModUnique(n + every, every, n / every + 1, n % every);
  }

  /** A non-empty input always starts with a line break, and the output
      ends with the input's last character: no trailing break is added. */
  lemma {:induction false} LinesEnds(s: string, every: nat)
    requires every > 0 && |s| > 0
    ensures var t := Lines(s, every); |t| > 0 && t[0] == '\n' && t[|t| - 1] == s[|s| - 1]
    decreases |s|
  {
    if |s| > every {
      var rest := s[every..];
      LinesEnds(rest, every);
      assert Lines(s, every) == ("\n" + s[..every]) + Lines(rest, every);
      assert rest[|rest| - 1] == s[|s| - 1];
    } else {
      assert Lines(s, every) == "\n" + s;
    }
  }

  /** A row stride of 1 gives a break every two hex characters: "ABCD"
      becomes "\nAB\nCD". */
  lemma LinesExample()
    ensures Lines("ABCD", 2) == "\nAB\nCD"
  {
    assert "ABCD"[..2] == "AB" && "ABCD"[2..] == "CD";
  }
}
