/** Option strings of fuse_opt.c: joining with escapes, and splitting in place. */
module FuseOpt {
  import opened Words

  const NUL: Byte := 0
  const COMMA: Byte := 44
  const BACKSLASH: Byte := 92

  type Text = seq<Byte>

  predicate NulFree(s: Text) {
    NUL !in s
  }

  function Escape(s: Text): Text {
    if s == [] then []
    else (if s[0] == COMMA || s[0] == BACKSLASH then [BACKSLASH, s[0]] else [s[0]]) + Escape(s[1..])
  }

  /** opts after one more option. */
  function Added(opts: Text, opt: Text, esc: bool): Text {
    (if opts == [] then [] else opts + [COMMA]) + if esc then Escape(opt) else opt
  }

  /** All of list joined, starting from no options. */
  function Joined(list: seq<Text>): Text {
    if list == [] then [] else Added(Joined(list[..|list| - 1]), list[|list| - 1], true)
  }

  predicate Octal(s: Text) {
    |s| >= 3 && 48 <= s[0] <= 51 && 48 <= s[1] <= 55 && 48 <= s[2] <= 55
  }

  function OctalValue(s: Text): Byte
    requires Octal(s)
  {
    (s[0] - 48) * 64 + (s[1] - 48) * 8 + (s[2] - 48)
  }

  /** The options in s, with the first one's beginning already read into acc. */
  function Split(s: Text, acc: Text): (list: seq<Text>)
    ensures list != []
    decreases |s|
  {
    if s == [] then [acc]
    else if s[0] == COMMA then [acc] + Split(s[1..], [])
    else if s[0] == BACKSLASH && |s| > 1 then
      (if Octal(s[1..]) then Split(s[4..], acc + [OctalValue(s[1..])]) else Split(s[2..], acc + [s[1]]))
    else Split(s[1..], acc + [s[0]])
  }

  /** An escaped option is read back whole; its escapes are never taken for octal ones. */
  lemma {:induction false} SplitEscaped(o: Text, rest: Text, acc: Text)
    requires rest == [] || rest[0] == COMMA
    ensures Split(Escape(o) + rest, acc) == Split(rest, acc + o)
  {
    if o == [] {
      assert Escape(o) + rest == rest && acc + o == acc;
    } else {
      var s := Escape(o) + rest;
      assert acc + [o[0]] + o[1..] == acc + o;
      if o[0] == COMMA || o[0] == BACKSLASH {
        assert s == [BACKSLASH, o[0]] + (Escape(o[1..]) + rest);
        assert s[2..] == Escape(o[1..]) + rest;
      } else {
        assert s == [o[0]] + (Escape(o[1..]) + rest);
        assert s[1..] == Escape(o[1..]) + rest;
      }
      SplitEscaped(o[1..], rest, acc + [o[0]]);
    }
  }

  /** The escaped options of list, with commas between. */
  function Commas(list: seq<Text>): Text
    requires list != []
  {
    if |list| == 1 then Escape(list[0]) else Escape(list[0]) + [COMMA] + Commas(list[1..])
  }

  lemma {:induction false} SplitCommas(list: seq<Text>)
    requires list != []
    ensures Split(Commas(list), []) == list
  {
    if |list| == 1 {
      assert Escape(list[0]) + [] == Escape(list[0]);
      SplitEscaped(list[0], [], []);
    } else {
      var rest := [COMMA] + Commas(list[1..]);
      assert Commas(list) == Escape(list[0]) + rest;
      SplitEscaped(list[0], rest, []);
      assert rest[1..] == Commas(list[1..]) && [] + list[0] == list[0];
      SplitCommas(list[1..]);
      assert [list[0]] + list[1..] == list;
    }
  }

  lemma {:induction false} CommasLast(list: seq<Text>, o: Text)
    requires list != []
    ensures Commas(list + [o]) == Commas(list) + [COMMA] + Escape(o)
  {
    var l := list + [o];
    if |list| == 1 {
      assert l[1..] == [o] && Commas([o]) == Escape(o);
    } else {
      assert l[1..] == list[1..] + [o];
      CommasLast(list[1..], o);
    }
  }

  lemma EscapeEmpty(o: Text)
    ensures Escape(o) == [] <==> o == []
  {
  }

  /** Leading empty options leave no trace. */
  function Trimmed(list: seq<Text>): seq<Text> {
    if |list| > 1 && list[0] == [] then Trimmed(list[1..]) else list
  }

  lemma {:induction false} TrimmedLast(list: seq<Text>, o: Text)
    requires list != []
    ensures Trimmed(list) != [] && |Trimmed(list)| <= |list|
    ensures Trimmed(list + [o]) == if Trimmed(list) == [[]] then [o] else Trimmed(list) + [o]
  {
    var l := list + [o];
    if |list| > 1 && list[0] == [] {
      assert l[1..] == list[1..] + [o];
      TrimmedLast(list[1..], o);
    } else if |list| == 1 && list[0] == [] {
      assert l[1..] == [o] && list == [[]];
    }
  }

  /** Commas in the joined text stand between what is left of the list. */
  lemma {:induction false} JoinedCommas(list: seq<Text>)
    requires list != []
    ensures Trimmed(list) != [] && Joined(list) == Commas(Trimmed(list))
  {
    var rest, o := list[..|list| - 1], list[|list| - 1];
    if rest == [] {
      assert list == [o] && Joined(rest) == [];
    } else {
      JoinedCommas(rest);
      assert list == rest + [o];
      TrimmedLast(rest, o);
      var t := Trimmed(rest);
      CommasLast(t, o);
      TrimmedHead(rest);
      CommasEmpty(t);
    }
  }

  lemma {:induction false} TrimmedHead(list: seq<Text>)
    requires list != []
    ensures Trimmed(list) != [] && (Trimmed(list)[0] != [] || Trimmed(list) == [[]])
  {
    if |list| > 1 && list[0] == [] {
      TrimmedHead(list[1..]);
    } else if |list| == 1 && list[0] == [] {
      assert list == [[]];
    }
  }

  lemma CommasEmpty(list: seq<Text>)
    requires list != [] && (list[0] != [] || list == [[]])
    ensures Commas(list) == [] <==> list == [[]]
  {
    EscapeEmpty(list[0]);
  }

  /** Splitting what was joined gives back the list exactly when no empty option leads it. */
  lemma RoundTrip(list: seq<Text>)
    requires list != []
    ensures Split(Joined(list), []) == list <==> |list| == 1 || list[0] != []
  {
    JoinedCommas(list);
    SplitCommas(Trimmed(list));
    if |list| > 1 && list[0] == [] {
      TrimmedLast(list[1..], []);
    }
  }

  /** An empty first option is lost. */
  lemma EmptyFirstLost()
    ensures Split(Joined([[], [97]]), []) == [[97]]
  {
    var list: seq<Text> := [[], [97]];
    JoinedCommas(list);
    assert list[1..] == [[97]];
    assert Trimmed(list) == [[97]];
    SplitCommas([[97]]);
  }

  lemma {:induction false} EscapeNext(s: Text, i: nat)
    requires i < |s|
    ensures Escape(s[..i + 1]) == Escape(s[..i]) + if s[i] == COMMA || s[i] == BACKSLASH then [BACKSLASH, s[i]] else [s[i]]
    decreases i
  {
    if i > 0 {
      assert s[..i + 1][1..] == s[1..][..i] && s[..i][1..] == s[1..][..i - 1];
      EscapeNext(s[1..], i - 1);
    }
  }

  /** add_opt_common: opts[..len] and opt are C strings; the new buffer is as long as the source allocates. */
  method AddOptCommon(opts: array<Byte>, len: nat, opt: Text, esc: bool) returns (d: array<Byte>, n: nat)
    requires len < opts.Length && opts[len] == NUL && NulFree(opts[..len]) && NulFree(opt)
    ensures fresh(d) && d.Length == len + 1 + 2 * |opt| + 1 && n < d.Length
    ensures d[..n] == Added(opts[..len], opt, esc) && d[n] == NUL
  {
    d := new Byte[len + 1 + 2 * |opt| + 1];
    n := 0;
    while n < len
      invariant 0 <= n <= len && d[..n] == opts[..n]
    {
      Store(d, n, opts[n]);
      assert opts[..n + 1] == opts[..n] + [opts[n]];
      n := n + 1;
    }
    if len != 0 {
      Store(d, n, COMMA);
      n := n + 1;
    }
    n := CopyOpt(d, n, opt, esc, if len == 0 then [] else opts[..len] + [COMMA]);
    d[n] := NUL;
  }

  /** Stores behind what is there. */
  method Store(d: array<Byte>, n: nat, c: Byte)
    requires n < d.Length
    modifies d
    ensures d[..n + 1] == old(d[..n]) + [c]
    ensures forall i {:trigger d[i]} | 0 <= i < d.Length && i != n :: d[i] == old(d[i])
  {
    d[n] := c;
  }

  /** The loop of add_opt_common. */
  method CopyOpt(d: array<Byte>, m: nat, opt: Text, esc: bool, ghost head: Text) returns (n: nat)
    requires m + 2 * |opt| < d.Length && d[..m] == head
    modifies d
    ensures n <= m + 2 * |opt| && d[..n] == head + if esc then Escape(opt) else opt
  {
    var i := 0;
    n := m;
    assert Copied(opt, 0, esc) == [] && head + [] == head;
    while i < |opt|
      invariant 0 <= i <= |opt| && n <= m + 2 * i
      invariant d[..n] == head + Copied(opt, i, esc)
    {
      CopiedNext(opt, i, esc);
      hide Copied;
      ghost var was := Copied(opt, i, esc);
      if esc && (opt[i] == COMMA || opt[i] == BACKSLASH) {
        Store(d, n, BACKSLASH);
        n := n + 1;
        Store(d, n, opt[i]);
        Assoc2(head, was, BACKSLASH, opt[i]);
      } else {
        Store(d, n, opt[i]);
        Assoc1(head, was, opt[i]);
      }
      n := n + 1;
      i := i + 1;
    }
    assert opt[..i] == opt;
  }

  lemma Assoc1(p: Text, q: Text, c: Byte)
    ensures p + q + [c] == p + (q + [c])
  {
  }

  lemma Assoc2(p: Text, q: Text, c: Byte, c': Byte)
    ensures p + q + [c] + [c'] == p + (q + [c, c'])
  {
  }

  /** What the first i characters of an option become. */
  function Copied(opt: Text, i: nat, esc: bool): Text
    requires i <= |opt|
  {
    if esc then Escape(opt[..i]) else opt[..i]
  }

  lemma CopiedNext(opt: Text, i: nat, esc: bool)
    requires i < |opt|
    ensures Copied(opt, i + 1, esc) == Copied(opt, i, esc) + if esc && (opt[i] == COMMA || opt[i] == BACKSLASH) then [BACKSLASH, opt[i]] else [opt[i]]
  {
    EscapeNext(opt, i);
    assert opt[..i + 1] == opt[..i] + [opt[i]];
  }

  /** A C string ends at its first NUL. */
  function Cut(s: Text): Text {
    if s == [] || s[0] == NUL then [] else [s[0]] + Cut(s[1..])
  }

  function CutAll(list: seq<Text>): (r: seq<Text>)
    ensures |r| == |list|
  {
    if list == [] then [] else [Cut(list[0])] + CutAll(list[1..])
  }

  lemma {:induction false} CutWhole(s: Text)
    ensures NulFree(s) ==> Cut(s) == s
  {
    if s != [] && NulFree(s) {
      CutWhole(s[1..]);
    }
  }

  lemma {:induction false} CutAllWhole(list: seq<Text>)
    requires forall i {:trigger list[i]} | 0 <= i < |list| :: NulFree(list[i])
    ensures CutAll(list) == list
  {
    if list != [] {
      CutWhole(list[0]);
      CutAllWhole(list[1..]);
    }
  }

  method CString(a: array<Byte>, ghost n: nat) returns (t: Text)
    requires n < a.Length && a[n] == NUL
    ensures t == Cut(a[..n])
  {
    var i := 0;
    t := [];
    assert a[..n] == a[0..n];
    while a[i] != NUL
      invariant 0 <= i <= n && Cut(a[..n]) == t + Cut(a[i..n])
      decreases n - i
    {
      assert a[i..n][1..] == a[i + 1..n];
      t := t + [a[i]];
      i := i + 1;
    }
  }

  /** process_real_option_group: outs are the strings handed on. The writes never pass the reads. */
  method ProcessRealOptionGroup(opts: array<Byte>, ghost n: nat) returns (outs: seq<Text>)
    requires n < opts.Length && opts[n] == NUL && NulFree(opts[..n])
    modifies opts
    ensures outs == CutAll(Split(old(opts[..n]), []))
  {
    ghost var text := opts[..n];
    ghost var all := CutAll(Split(text, []));
    var s, d, end := 0, 0, false;
    outs := [];
    assert text[0..] == text && opts[..0] == [];
    while !end
      invariant 0 <= d <= s && (!end ==> s <= n)
      invariant !end ==> Unread(opts, s, text)
      invariant if end then outs == all else outs + CutAll(Split(text[s..], opts[..d])) == all
      decreases !end, n - s
    {
      assert s < n ==> text[s] in text;
      ghost var acc := opts[..d];
      SplitStep(text, s, acc, outs);
      if opts[s] == NUL {
        end := true;
      }
      hide Split, CutAll, Cut;
      if opts[s] == COMMA || end {
        Store(opts, d, NUL);
        assert opts[..d] == opts[..d + 1][..d] == acc;
        var t := CString(opts, d);
        outs := outs + [t];
        d := 0;
        assert opts[..0] == [];
        s := s + 1;
      } else {
        s := ReadChar(opts, s, d, text);
        d := d + 1;
      }
    }
  }

  ghost predicate Unread(opts: array<Byte>, s: nat, text: Text)
    reads opts
  {
    && |text| < opts.Length && NulFree(text)
    && forall i {:trigger opts[i]} | s <= i <= |text| :: opts[i] == if i < |text| then text[i] else NUL
  }

  /** One plain or escaped character is read at s and stored at d; the rest starts at s'. */
  method ReadChar(opts: array<Byte>, s: nat, d: nat, ghost text: Text) returns (s': nat)
    requires d <= s < |text| && Unread(opts, s, text) && text[s] != COMMA
    modifies opts
    ensures s < s' <= |text| && Unread(opts, s', text)
    ensures Split(text[s..], old(opts[..d])) == Split(text[s'..], opts[..d + 1])
  {
    ghost var acc := opts[..d];
    SplitStep(text, s, acc, []);
    assert s + 1 < |text| ==> text[s + 1] in text;
    hide Split, CutAll, Cut, Octal, OctalValue;
    s' := s;
    if opts[s] == BACKSLASH && opts[s + 1] != NUL {
      s' := s + 1;
      OctalAt(text, s');
      if 48 <= opts[s'] <= 51 && 48 <= opts[s' + 1] <= 55 && 48 <= opts[s' + 2] <= 55 {
        Store(opts, d, (opts[s'] - 48) * 64 + (opts[s' + 1] - 48) * 8 + (opts[s' + 2] - 48));
        s' := s' + 2;
      } else {
        Store(opts, d, opts[s']);
      }
    } else {
      Store(opts, d, opts[s]);
    }
    s' := s' + 1;
  }

  lemma OctalAt(text: Text, s: nat)
    requires s < |text|
    ensures Octal(text[s..]) <==> s + 2 < |text| && 48 <= text[s] <= 51 && 48 <= text[s + 1] <= 55 && 48 <= text[s + 2] <= 55
    ensures Octal(text[s..]) ==> OctalValue(text[s..]) == (text[s] - 48) * 64 + (text[s + 1] - 48) * 8 + (text[s + 2] - 48)
  {
  }

  /** What one character of the text adds. */
  lemma SplitStep(text: Text, s: nat, acc: Text, outs: seq<Text>)
    requires s <= |text|
    ensures s == |text| ==> outs + CutAll(Split(text[s..], acc)) == outs + [Cut(acc)]
    ensures s < |text| && text[s] == COMMA ==> outs + CutAll(Split(text[s..], acc)) == outs + [Cut(acc)] + CutAll(Split(text[s + 1..], []))
    ensures s < |text| && text[s] != COMMA && !(text[s] == BACKSLASH && s + 1 < |text|) ==> Split(text[s..], acc) == Split(text[s + 1..], acc + [text[s]])
    ensures s + 1 < |text| && text[s] == BACKSLASH ==>
      Split(text[s..], acc) == if Octal(text[s + 1..]) then Split(text[s + 4..], acc + [OctalValue(text[s + 1..])]) else Split(text[s + 2..], acc + [text[s + 1]])
  {
    var rest := text[s..];
    if s < |text| {
      assert rest[1..] == text[s + 1..];
      if s + 1 < |text| {
        assert rest[2..] == text[s + 2..];
        if Octal(text[s + 1..]) {
          assert rest[4..] == text[s + 4..];
        }
      }
    }
  }

  /** What was joined is handed on unchanged, exactly when no empty option leads the list. */
  lemma RoundTripStrings(list: seq<Text>)
    requires list != [] && forall i {:trigger list[i]} | 0 <= i < |list| :: NulFree(list[i])
    ensures CutAll(Split(Joined(list), [])) == list <==> |list| == 1 || list[0] != []
  {
    RoundTrip(list);
    CutAllWhole(list);
    JoinedCommas(list);
    SplitCommas(Trimmed(list));
    if |list| > 1 && list[0] == [] {
      TrimmedLast(list[1..], []);
    }
  }
}
