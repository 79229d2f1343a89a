/** guac_parser_read stays in step with a printed instruction, however the bytes arrive. */
module ReadingInStep {
  import opened Wire
  import opened Utf8
  import opened Framing
  import opened Appending
  import opened Reading

  /** They are exactly the separators before the position. */
  lemma SeparatorsBefore(f: Text, p: nat, c: Config)
    requires At(f, p, c)
    ensures forall k :: 0 <= k < |f.list| ==> (f.end[k] < p <==> k < Passed(c))
  {
    if c.state == LENGTH {
      assert Piece(f, c.count);
    } else if c.state == CONTENT {
      assert Piece(f, c.count - 1);
    }
  }

  /** A step consumes one separator at most, and writes its NUL there. */
  lemma StepPasses(c: Config, data: string)
    ensures var s := AppendSpec(c, data);
      s.config.state != ERROR && c.state != ERROR ==>
        && Passed(s.config) == Passed(c) + (if s.nul.Some? then 1 else 0)
        && (s.nul.Some? ==> Passed(s.config) == s.config.count)
  {}

  lemma SeparatorsBetween(f: Text, p: nat, c: Config, p': nat, c': Config, one: bool)
    requires At(f, p, c) && At(f, p', c') && Passed(c') == Passed(c) + (if one then 1 else 0)
    ensures forall k :: 0 <= k < |f.list| ==> (f.end[k] < p' <==> f.end[k] < p || (one && k == Passed(c') - 1))
  {
    SeparatorsBefore(f, p, c);
    SeparatorsBefore(f, p', c');
  }

  /** The next bytes are stored as they arrived, and a NUL over the separator e does not touch any content. */
  lemma ContentStored(f: Text, g: nat, past: string, data: string, n: nat, nul: Option<nat>, e: nat, k: nat, j: nat)
    requires Arrives(f.text, g + |past|, data) && Stored(f, g, past) && n <= |data|
    requires nul.Some? ==> nul.value < |data| && e < |f.list| && g + |past| + nul.value == f.end[e]
    requires k < |f.list| && f.content[k] <= j < f.end[k] && g <= j < g + |past| + n
    ensures (past + WithNul(data, 0, nul)[..n])[j - g] == f.text[j]
  {
    var p := g + |past|;
    if j >= p {
      assert data[j - p] == f.text[p + (j - p)];
      if nul.Some? {
        assert j != f.end[e] by {
          if k < e { assert f.end[k] < f.start[e]; } else if e < k { assert f.end[e] < f.start[k]; }
        }
      }
    }
  }

  lemma StoredOn(f: Text, g: nat, past: string, data: string, n: nat, nul: Option<nat>, e: nat)
    requires Arrives(f.text, g + |past|, data) && Stored(f, g, past) && n <= |data|
    requires nul.Some? ==> nul.value < |data| && e < |f.list| && g + |past| + nul.value == f.end[e]
    requires forall k :: 0 <= k < |f.list| ==>
      (f.end[k] < g + |past| + n <==> f.end[k] < g + |past| || (nul.Some? && k == e))
    ensures Stored(f, g, past + WithNul(data, 0, nul)[..n])
  {
    var past' := past + WithNul(data, 0, nul)[..n];
    forall k, j | 0 <= k < |f.list| && f.content[k] <= j < f.end[k] && g <= j < g + |past'|
      ensures past'[j - g] == f.text[j]
    {
      ContentStored(f, g, past, data, n, nul, e, k, j);
    }
  }

  lemma StoredStays(f: Text, g: nat, past: string, p: nat, c: Config, data: string, s: Step)
    requires p == g + |past| && At(f, p, c) && Stays(f, p, c, data, s) && Arrives(f.text, p, data) && Stored(f, g, past)
    requires s.parsed <= |data| && (s.nul.Some? ==> s.nul.value < |data| && Passed(s.config) == s.config.count)
    requires Passed(s.config) == Passed(c) + (if s.nul.Some? then 1 else 0)
    ensures Stored(f, g, past + WithNul(data, 0, s.nul)[..s.parsed])
  {
    SeparatorsBetween(f, p, c, p + s.parsed, s.config, s.nul.Some?);
    StoredOn(f, g, past, data, s.parsed, s.nul, if s.nul.Some? then s.config.count - 1 else 0);
  }

  /** Dropping n bytes from the front of what is in memory drops them from what is left. */
  lemma DataLeft(whole: string, incoming: string, mem: string, p: nat, start: nat, end: nat, n: nat, nul: Option<nat>)
    requires p <= |whole| && start <= end <= |mem| && mem[start..end] + incoming == whole[p..] && n <= end - start
    requires nul.Some? ==> nul.value < n
    ensures p + n <= |whole| && WithNul(mem, start, nul)[start + n..end] + incoming == whole[p + n..]
  {
    var data := mem[start..end];
    assert |data + incoming| == |whole| - p;
    assert WithNul(mem, start, nul)[start + n..end] == mem[start + n..end] == data[n..];
    assert data[n..] + incoming == (data + incoming)[n..];
    assert whole[p..][n..] == whole[p + n..];
  }

  lemma DataArrives(f: Text, after: string, incoming: string, data: string, p: nat)
    requires p <= |f.text| && data + incoming == (f.text + after)[p..]
    ensures Arrives(f.text, p, data)
  {
    forall i | 0 <= i < |data| && p + i < |f.text| ensures data[i] == f.text[p + i] {
      assert (data + incoming)[i] == (f.text + after)[p..][i];
    }
  }

  lemma PositionBounded(f: Text, p: nat, c: Config)
    requires At(f, p, c)
    ensures p <= |f.text| && c.count <= |f.list|
  {
    if c.state == LENGTH {
      assert Piece(f, c.count);
    } else if c.state == CONTENT {
      assert Piece(f, c.count - 1);
    }
  }

  lemma PositionBehind(f: Text, g: nat, c: Config)
    requires At(f, g, c)
    ensures Behind(f, g, c.count)
  {
    if c.state == LENGTH {
      assert Piece(f, c.count);
    } else if c.state == CONTENT {
      assert Piece(f, c.count - 1);
    }
  }

  /** An append moves on in the text, and takes something unless part of the text is still to come. */
  lemma AppendMoves(t: Target, m: Reader, s: Step)
    requires InStep(t, m) && s == AppendSpec(m.config, Data(m))
    ensures Arrives(t.f.text, Reached(t, m), Data(m)) && Stays(t.f, Reached(t, m), m.config, Data(m), s)
    ensures Passed(s.config) == Passed(m.config) + (if s.nul.Some? then 1 else 0)
    ensures s.nul.Some? ==> Passed(s.config) == s.config.count
  {
    DataArrives(t.f, t.after, m.incoming, Data(m), Reached(t, m));
    AppendStays(t.f, Reached(t, m), m.config, Data(m));
    StepPasses(m.config, Data(m));
  }

  lemma PlacedStays(f: Text, b: nat, elements: seq<int>, c: Config, from: int, p: nat, data: string, s: Step)
    requires 0 <= from + p && Placed(f, b, elements, c, from, p) && Stays(f, p, c, data, s)
    requires s.config.count == c.count + (if s.element.Some? then 1 else 0)
    ensures Placed(f, b, WithElement(elements, c.count, from + p, s.element), s.config, from, p + s.parsed)
  {
    PositionBounded(f, p + s.parsed, s.config);
  }

  lemma TakenPlaced(t: Target, m: Reader, s: Step)
    requires InStep(t, m) && s == AppendSpec(m.config, Data(m))
    ensures Placed(t.f, t.b, WithElement(m.elements, m.config.count, m.start, s.element), s.config, m.instr - t.g,
                   Reached(t, m) + s.parsed)
    ensures s.nul.Some? ==> s.nul.value < s.parsed
  {
    AppendMoves(t, m, s);
    PlacedStays(t.f, t.b, m.elements, m.config, m.instr - t.g, Reached(t, m), Data(m), s);
  }

  lemma TakenStored(t: Target, m: Reader, s: Step)
    requires InStep(t, m) && s == AppendSpec(m.config, Data(m))
    ensures Stored(t.f, t.g, Past(m) + WithNul(Data(m), 0, s.nul)[..s.parsed])
  {
    AppendMoves(t, m, s);
    StoredStays(t.f, t.g, Past(m), Reached(t, m), m.config, Data(m), s);
  }

  lemma PastGrows(mem: string, instr: nat, start: nat, end: nat, n: nat, nul: Option<nat>)
    requires instr <= start <= end <= |mem| && n <= end - start && (nul.Some? ==> nul.value < end - start)
    ensures WithNul(mem, start, nul)[instr..start + n] == mem[instr..start] + WithNul(mem[start..end], 0, nul)[..n]
  {
    var past, data := mem[instr..start], mem[start..end];
    var left, right := WithNul(mem, start, nul)[instr..start + n], past + WithNul(data, 0, nul)[..n];
    forall i | 0 <= i < |left| ensures left[i] == right[i] {
      if i >= |past| {
        assert mem[instr + i] == data[i - |past|];
      }
    }
  }

  lemma AfterIs(m: Reader, s: Step, m': Reader)
    requires Sane(m) && s.parsed <= m.end - m.start && (s.nul.Some? ==> s.nul.value < s.parsed) && m' == After(m, s)
    requires s.config.count <= MAX_ELEMENTS
    ensures Sane(m') && m'.start == m.start + s.parsed && m'.instr == m.instr && m'.incoming == m.incoming
    ensures Past(m') == Past(m) + WithNul(Data(m), 0, s.nul)[..s.parsed]
  {
    PastGrows(m.mem, m.instr, m.start, m.end, s.parsed, s.nul);
  }

  lemma AfterData(whole: string, p: nat, m: Reader, s: Step, m': Reader)
    requires Sane(m) && s.parsed <= m.end - m.start && (s.nul.Some? ==> s.nul.value < s.parsed) && m' == After(m, s)
    requires p <= |whole| && Data(m) + m.incoming == whole[p..]
    ensures p + s.parsed <= |whole| && Data(m') + m'.incoming == whole[p + s.parsed..]
  {
    DataLeft(whole, m.incoming, m.mem, p, m.start, m.end, s.parsed, s.nul);
  }

  lemma AfterInStep(t: Target, m: Reader, s: Step, m': Reader, p: nat, past: string)
    requires Sane(m) && |t.f.text| <= BUFFER_SIZE + t.g && Behind(t.f, t.g, t.b)
    requires s.parsed <= m.end - m.start && (s.nul.Some? ==> s.nul.value < s.parsed) && m' == After(m, s)
    requires p == Reached(t, m) <= |t.f.text| && Data(m) + m.incoming == (t.f.text + t.after)[p..]
    requires Placed(t.f, t.b, m'.elements, m'.config, m.instr - t.g, p + s.parsed)
    requires past == Past(m) + WithNul(Data(m), 0, s.nul)[..s.parsed] && Stored(t.f, t.g, past)
    ensures InStep(t, m')
  {
    AfterIs(m, s, m');
    AfterData(t.f.text + t.after, p, m, s, m');
    assert Reached(t, m') == p + s.parsed;
  }

  /** An append stays in step. */
  lemma TakenInStep(t: Target, m: Reader, m': Reader)
    requires InStep(t, m) && m' == Taken(m)
    ensures InStep(t, m')
  {
    StepInStep(t, m, AppendSpec(m.config, Data(m)), m');
  }

  lemma StepInStep(t: Target, m: Reader, s: Step, m': Reader)
    requires InStep(t, m) && s == AppendSpec(m.config, Data(m)) && m' == After(m, s)
    ensures InStep(t, m')
  {
    TakenPlaced(t, m, s);
    TakenStored(t, m, s);
    AfterInStep(t, m, s, m', Reached(t, m), Past(m) + WithNul(Data(m), 0, s.nul)[..s.parsed]);
  }

  lemma NothingTaken(f: Text, p: nat, c: Config, data: string, s: Step)
    requires At(f, p, c) && Arrives(f.text, p, data) && c.state != COMPLETE && c.count < MAX_ELEMENTS
    requires s == AppendSpec(c, data) && s.config.state != ERROR && s.parsed == 0
    ensures s.config == c && s.nul.None? && (data == "" || (c.state == CONTENT && |data| < CharSize(data[0])))
  {
    if c.state == LENGTH {
      LengthEnds(f, p, c, data, ScanLength(data, 0, c.length));
      LengthSpec(c, data, ScanLength(data, 0, c.length), s);
    }
  }

  /** An append takes something unless part of the text is still to come, and otherwise changes nothing. */
  lemma TakenNothing(t: Target, m: Reader)
    requires InStep(t, m) && m.config.state != COMPLETE && Taken(m).start == m.start
    ensures t.g + (m.end - m.instr) < |t.f.text| && Starving(m) && Taken(m) == m
  {
    var s := AppendSpec(m.config, Data(m));
    AppendMoves(t, m, s);
    NothingTaken(t.f, Reached(t, m), m.config, Data(m), s);
  }

  lemma AlikeInStep(t: Target, m: Reader, m': Reader)
    requires InStep(t, m) && Alike(m, m')
    ensures InStep(t, m')
  {
    assert |Past(m')| == |Past(m)|;
  }

  lemma FilledAlike(m: Reader, data: string, m': Reader)
    requires Sane(m) && m.end + |data| <= BUFFER_SIZE && data <= m.incoming && m' == Filled(m, data)
    ensures Alike(m, m')
  {
    assert Data(m') == Data(m) + data;
    assert Data(m') + m'.incoming == Data(m) + m.incoming;
  }

  lemma ShiftedAlike(m: Reader, m': Reader)
    requires Sane(m) && m' == Shifted(m)
    ensures Alike(m, m')
  {
    assert forall j :: 0 <= j < m'.end ==> m'.mem[j] == m.mem[m.instr + j];
    assert Data(m') == Data(m);
  }

  lemma ElementStored(f: Text, g: nat, past: string, k: nat)
    requires Stored(f, g, past) && k < |f.list| && g < f.content[k] && f.end[k] < g + |past|
    ensures var c, e := f.content[k] - g, f.end[k] - g;
      past[c..e] == f.list[k] && e < |past| && past[e] == NUL
  {
    assert Piece(f, k);
    var c, s := f.content[k], f.list[k];
    forall i | 0 <= i < |s| ensures past[c - g + i] == s[i] {
      assert past[c + i - g] == f.text[c + i];
    }
  }

  lemma CStringAt(mem: string, base: nat, past: string, c: nat, e: nat)
    requires base + |past| <= |mem| && mem[base..base + |past|] == past && c <= e < |past| && past[e] == NUL
    requires NoNul(past[c..e])
    ensures CString(mem, base + c) == past[c..e]
  {
    forall i | 0 <= i < |past| ensures mem[base + i] == past[i] {
      assert mem[base..base + |past|][i] == past[i];
    }
    CStringIs(mem, base + c, past[c..e]);
  }

  /** Behind a separator, each element found in this call is where its pointer says, ended by a NUL. */
  lemma FoundInStep(t: Target, m: Reader, k: nat)
    requires InStep(t, m) && m.config.state != CONTENT && t.b <= k < m.config.count
    ensures m.elements[k] >= 0 && CString(m.mem, m.elements[k]) == t.f.list[k]
  {
    var past := Past(m);
    SeparatorsBefore(t.f, Reached(t, m), m.config);
    ElementStored(t.f, t.g, past, k);
    assert ReadableString(t.f.list[k], MAX_LENGTH);
    CStringAt(m.mem, m.instr, past, t.f.content[k] - t.g, t.f.end[k] - t.g);
  }

  /** A complete instruction: the elements are the list that was printed. */
  lemma CompleteInStep(t: Target, m: Reader, k: nat)
    requires InStep(t, m) && m.config.state == COMPLETE && t.b <= k < |t.f.list|
    ensures m.elements[k] >= 0 && CString(m.mem, m.elements[k]) == t.f.list[k]
  {
    FoundInStep(t, m, k);
  }

  /** While part of the text is still to come, the stream has not ended. */
  lemma MoreToCome(t: Target, m: Reader)
    requires InStep(t, m) && t.g + (m.end - m.instr) < |t.f.text|
    ensures m.incoming != ""
  {
    assert |Data(m) + m.incoming| == |(t.f.text + t.after)[Reached(t, m)..]|;
  }

  /** Nothing could be parsed: there is room, and something to come. */
  lemma ReadyInStep(t: Target, m: Reader, ready: Reader)
    requires InStep(t, m) && m.config.state != COMPLETE && t.g + (m.end - m.instr) < |t.f.text|
    requires Starving(m) && ready == MadeRoom(m)
    ensures InStep(t, ready) && Starving(ready) && ready.config == m.config
    ensures ready.end < BUFFER_SIZE && ready.incoming == m.incoming != "" && ready.sizes == m.sizes
  {
    MoreToCome(t, m);
    if m.end == BUFFER_SIZE {
      ShiftedAlike(m, ready);
      AlikeInStep(t, m, ready);
      assert m.start < m.end ==> Data(ready)[0] == Data(m)[0];
    }
  }

  lemma RefilledInStep(t: Target, m: Reader, m': Reader)
    requires InStep(t, m) && m.end < BUFFER_SIZE && m' == Refilled(m)
    ensures InStep(t, m')
  {
    FilledAlike(m, m.incoming[..ReadSize(m.sizes, BUFFER_SIZE - m.end, |m.incoming|)], m');
    AlikeInStep(t, m, m');
  }

  /** Where a run in step stops early. */
  ghost predicate Stopped(t: Target, m: Reader) {
    InStep(t, m) && m.config.state != COMPLETE && m.config.state != ERROR && Starving(m)
  }

  lemma Stops(t: Target, ready: Reader, next: Reader)
    requires InStep(t, ready) && Starving(ready) && ready.config.state != COMPLETE &&
      next == ready.(sizes := next.sizes)
    ensures Stopped(t, next)
  {}

  /** One turn of the loop when nothing could be parsed. */
  lemma MoreInStep(t: Target, m: Reader, more: (Reader, Option<Outcome>))
    requires InStep(t, m) && m.config.state != COMPLETE && Taken(m).start == m.start && more == More(m)
    ensures Taken(m) == m && more.1 == (if TimesOut(m.sizes) then Some(TimedOut) else None)
    ensures if more.1.None? then InStep(t, more.0) && more.0.sizes == Later(m.sizes) else Stopped(t, more.0)
  {
    var ready := MadeRoom(m);
    TakenNothing(t, m);
    ReadyInStep(t, m, ready);
    if TimesOut(m.sizes) {
      Stops(t, ready, more.0);
    } else {
      RefilledInStep(t, ready, more.0);
    }
  }

  /** A turn of the loop stays in step, or stops for a time-out. */
  lemma TurnInStep(t: Target, m: Reader, turn: (Reader, Option<Outcome>))
    requires InStep(t, m) && m.config.state != COMPLETE && turn == Turn(m)
    ensures turn.1.None? ==> InStep(t, turn.0) && (0 in turn.0.sizes ==> 0 in m.sizes)
    ensures turn.1.Some? ==> turn.1.value == TimedOut && Stopped(t, turn.0) && 0 in m.sizes
  {
    var taken := Taken(m);
    if taken.start > m.start {
      TakenInStep(t, m, taken);
    } else {
      MoreInStep(t, m, More(m));
    }
  }

  /** A run in step reads the instruction, unless a read times out. */
  lemma {:induction false} RunsInStep(t: Target, m: Reader, r: (Reader, Outcome))
    requires InStep(t, m) && r == Loop(m)
    ensures r.1 == Done || (r.1 == TimedOut && 0 in m.sizes)
    ensures if r.1 == Done then InStep(t, r.0) && r.0.config.state == COMPLETE else Stopped(t, r.0)
    decreases Measure(m)
  {
    if m.config.state != COMPLETE {
      var turn := Turn(m);
      TurnInStep(t, m, turn);
      if turn.1.None? {
        RunsInStep(t, turn.0, r);
      }
    }
  }
}
