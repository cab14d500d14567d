/** server.c: cutting a line of the meta-connexion into fields, in place. */
module MetaLine {
  import opened Sequences

  predicate Delim(c: char) { c == ' ' || c == ':' }

  predicate NoDelim(s: string) { forall i :: 0 <= i < |s| ==> !Delim(s[i]) }

  predicate Plain(s: string) { forall i :: 0 <= i < |s| ==> s[i] != '\0' }

  /** strspn over the delimiters. */
  function Leading(s: string): (k: nat)
    ensures k <= |s| && (forall i :: 0 <= i < k ==> Delim(s[i])) && (k < |s| ==> !Delim(s[k]))
  {
    if s == "" || !Delim(s[0]) then 0 else 1 + Leading(s[1..])
  }

  /** The length of the first field. */
  function Span(s: string): (k: nat)
    ensures k <= |s| && NoDelim(s[..k]) && (k < |s| ==> Delim(s[k]))
  {
    if s == "" || Delim(s[0]) then 0 else 1 + Span(s[1..])
  }

  /** The fields of s, and the delimiters between them. */
  function Fields(s: string): (t: seq<string>)
    ensures t != []
    decreases |s|
  {
    var k := Span(s);
    if k == |s| then [s] else [s[..k]] + Fields(s[k + 1..])
  }

  function Erased(s: string): string
    decreases |s|
  {
    var k := Span(s);
    if k == |s| then "" else [s[k]] + Erased(s[k + 1..])
  }

  /** Fields with the delimiters back between them. */
  function Weave(t: seq<string>, d: string): string
    requires |t| == |d| + 1
  {
    if d == "" then t[0] else t[0] + [d[0]] + Weave(t[1..], d[1..])
  }

  lemma {:induction false} Cut(s: string)
    ensures |Fields(s)| == |Erased(s)| + 1
    ensures forall i :: 0 <= i < |Fields(s)| ==> NoDelim(Fields(s)[i]) && ' ' !in Fields(s)[i] && ':' !in Fields(s)[i]
    ensures forall i :: 0 <= i < |Erased(s)| ==> Erased(s)[i] == ' ' || Erased(s)[i] == ':'
    decreases |s|
  {
    hide Span;
    if Span(s) == |s| {
      assert s[..|s|] == s;
    } else {
      Cut(s[Span(s) + 1..]);
    }
  }

  /** Nothing is lost: the fields contain no delimiter, and with the erased ones back they are the line. */
  lemma {:induction false} Lossless(s: string)
    ensures |Fields(s)| == |Erased(s)| + 1 && Weave(Fields(s), Erased(s)) == s
    decreases |s|
  {
    hide Span, NoDelim;
    Cut(s);
    var k := Span(s);
    if k < |s| {
      Lossless(s[k + 1..]);
      assert Fields(s)[1..] == Fields(s[k + 1..]) && Erased(s)[1..] == Erased(s[k + 1..]);
      assert s == s[..k] + [s[k]] + s[k + 1..];
    }
  }

  /** And there is no other way to cut the line. */
  lemma {:induction false} FieldsUnique(t: seq<string>, d: string)
    requires |t| == |d| + 1
    requires (forall i :: 0 <= i < |t| ==> NoDelim(t[i])) && (forall i :: 0 <= i < |d| ==> Delim(d[i]))
    ensures Fields(Weave(t, d)) == t && Erased(Weave(t, d)) == d
    decreases |d|
  {
    var s := Weave(t, d);
    SpanOf(t[0], s[|t[0]|..]);
    assert s == t[0] + s[|t[0]|..];
    if d == "" {
      assert t == [t[0]];
    } else {
      FieldsUnique(t[1..], d[1..]);
      assert s[|t[0]|] == d[0];
      assert s[|t[0]| + 1..] == Weave(t[1..], d[1..]);
      assert s[..|t[0]|] == t[0];
      assert t == [t[0]] + t[1..] && d == [d[0]] + d[1..];
    }
  }

  lemma {:induction false} SpanOf(a: string, rest: string)
    requires NoDelim(a) && (rest == "" || Delim(rest[0]))
    ensures Span(a + rest) == |a|
  {
    if a == "" {
      assert a + rest == rest;
    } else {
      assert (a + rest)[1..] == a[1..] + rest;
      SpanOf(a[1..], rest);
    }
  }

  /** The C string at offset i. */
  function CStr(a: seq<char>, i: nat): (s: string)
    requires i <= |a|
    ensures s <= a[i..] && Plain(s) && (i + |s| < |a| ==> a[i + |s|] == '\0')
    decreases |a| - i
  {
    if i == |a| || a[i] == '\0' then "" else [a[i]] + CStr(a, i + 1)
  }

  lemma {:induction false} CStrIs(a: seq<char>, i: nat, j: nat)
    requires i <= j < |a| && a[j] == '\0' && Plain(a[i..j])
    ensures CStr(a, i) == a[i..j]
    decreases j - i
  {
    if i < j {
      assert a[i] == a[i..j][0];
      assert Plain(a[i + 1..j]) by { assert a[i + 1..j] == a[i..j][1..]; }
      CStrIs(a, i + 1, j);
    }
  }

  /** strspn and strpbrk on the C string that ends at n. */
  method SkipDelims(line: array<char>, ptr: nat, n: nat) returns (p: nat)
    requires ptr <= n < line.Length && line[n] == '\0' && Plain(line[ptr..n])
    ensures ptr <= p <= n && p == ptr + Leading(line[ptr..n])
  {
    p := ptr;
    while Delim(line[p])
      invariant ptr <= p <= n && ptr + Leading(line[ptr..n]) == p + Leading(line[p..n])
      decreases n - p
    {
      assert line[p..n][1..] == line[p + 1..n] && line[p..n][0] == line[p];
      p := p + 1;
    }
    if p < n { assert line[p..n][0] == line[p]; }
  }

  lemma SpanAt(a: seq<char>, t: nat, n: nat)
    requires t < n <= |a|
    ensures Span(a[t..n]) == if Delim(a[t]) then 0 else 1 + Span(a[t + 1..n])
  {
    assert a[t..n][1..] == a[t + 1..n] && a[t..n][0] == a[t];
  }

  method FindDelim(line: array<char>, ptr: nat, n: nat) returns (tmp: nat)
    requires ptr <= n < line.Length && line[n] == '\0' && Plain(line[ptr..n])
    ensures ptr <= tmp <= n && tmp == ptr + Span(line[ptr..n])
  {
    hide Span;
    tmp := ptr;
    while line[tmp] != '\0' && !Delim(line[tmp])
      invariant ptr <= tmp <= n && ptr + Span(line[ptr..n]) == tmp + Span(line[tmp..n])
      decreases n - tmp
    {
      SpanAt(line[..], tmp, n);
      tmp := tmp + 1;
    }
    if tmp < n {
      SpanAt(line[..], tmp, n);
      assert line[tmp] == line[ptr..n][tmp - ptr];
    }
  }

  /** next_token; -1 stands for NULL. */
  method NextToken(line: array<char>, ptr0: int, save0: int, n: nat) returns (ptr: int, save: int)
    requires n < line.Length && line[n] == '\0' && -1 <= ptr0 <= n && -1 <= save0 <= n
    requires var p := if ptr0 == -1 then save0 else ptr0; p >= 0 ==> Plain(line[p..n])
    modifies line
    ensures ptr0 == -1 && save0 == -1 ==> ptr == save == -1 && line[..] == old(line[..])
    ensures ptr0 != -1 || save0 != -1 ==>
              && 0 <= ptr <= n && ptr == (if ptr0 == -1 then save0 else ptr0 + Leading(old(line[ptr0..n])))
              && var k := ptr + Span(old(line[..n])[ptr..]);
                 && save == (if k == n then -1 else k + 1)
                 && line[..] == if k == n then old(line[..]) else old(line[..])[k := '\0']
  {
    hide Span, Leading;
    ptr, save := ptr0, save0;
    if ptr == -1 {
      ptr := save;
      if ptr == -1 {
        return;
      }
    } else {
      ptr := SkipDelims(line, ptr, n);
    }
    assert Plain(line[ptr..n]) by { PlainTail(line[if ptr0 == -1 then save0 else ptr0..n], ptr - if ptr0 == -1 then save0 else ptr0); }
    assert line[..n][ptr..] == line[ptr..n];
    var tmp := FindDelim(line, ptr, n);
    if line[tmp] != '\0' {
      line[tmp] := '\0';
      save := tmp + 1;
    } else {
      save := -1;
    }
  }

  lemma PlainTail(s: string, k: nat)
    requires Plain(s) && k <= |s|
    ensures Plain(s[k..])
  {
  }

  /** The field f stands in a from t on, ended by a NUL at e. */
  predicate InPlace(a: seq<char>, t: nat, e: nat, f: string) {
    t <= e < |a| && a[e] == '\0' && a[t..e] == f && Plain(f)
  }

  predicate AllInPlace(a: seq<char>, toks: seq<nat>, ends: seq<nat>, fields: seq<string>, lim: nat) {
    |toks| == |ends| == |fields| && forall i :: 0 <= i < |toks| ==> InPlace(a, toks[i], ends[i], fields[i]) && ends[i] < lim
  }

  lemma PlainPart(s: string, i: nat, j: nat)
    requires Plain(s) && i <= j <= |s|
    ensures Plain(s[i..j])
  {
  }

  /** One field cut off: s is the line as it was, p where the field starts. */
  lemma CutOne(s: string, p: nat)
    requires p <= |s| && Plain(s)
    ensures var k := p + Span(s[p..]);
            && k <= |s| && Plain(s[p..k])
            && Fields(s[p..]) == [s[p..k]] + if k == |s| then [] else Fields(s[k + 1..])
  {
    hide Span, Plain;
    var r, k := s[p..], Span(s[p..]);
    assert r[..k] == s[p..p + k];
    PlainPart(s, p, p + k);
    if p + k == |s| {
      assert s[p..|s|] == r;
    } else {
      assert r[k + 1..] == s[p + k + 1..];
    }
  }

  /** A later field is cut off behind the ones in place. */
  lemma StaysInPlace(a: seq<char>, b: seq<char>, toks: seq<nat>, ends: seq<nat>, fields: seq<string>, lim: nat)
    requires AllInPlace(a, toks, ends, fields, lim) && lim <= |a| == |b| && a[..lim] == b[..lim]
    ensures AllInPlace(b, toks, ends, fields, lim)
  {
    forall i | 0 <= i < |toks| ensures InPlace(b, toks[i], ends[i], fields[i]) {
      assert InPlace(a, toks[i], ends[i], fields[i]) && ends[i] < lim;
      assert forall j :: 0 <= j < lim ==> a[j] == a[..lim][j] && b[j] == b[..lim][j];
      assert a[toks[i]..ends[i]] == b[toks[i]..ends[i]];
    }
  }

  /** The field at from has just been cut off: what follows it is untouched. */
  predicate Pending(a: seq<char>, s: string, n: nat, from: nat, save: int) {
    && n < |a| && |s| == n && from <= n && Plain(s)
    && var k := from + Span(s[from..]);
       && a[k] == '\0' && a[from..k] == s[from..k]
       && (if k == n then save == -1 else save == k + 1 && a[k + 1..n] == s[k + 1..])
  }

  lemma PushInPlace(a: seq<char>, toks: seq<nat>, ends: seq<nat>, fields: seq<string>, lim: nat, s: string, n: nat, from: nat, save: int)
    requires AllInPlace(a, toks, ends, fields, lim) && lim <= from && Pending(a, s, n, from, save)
    ensures var k := from + Span(s[from..]);
            AllInPlace(a, toks + [from], ends + [k], fields + [s[from..k]], k + 1)
  {
    hide Span;
    CutOne(s, from);
    var k := from + Span(s[from..]);
    assert InPlace(a, from, k, s[from..k]);
  }

  /** Cutting off the next field leaves the next one pending. */
  lemma NextPending(a: seq<char>, b: seq<char>, s: string, n: nat, from: nat, save: nat, save': int)
    requires Pending(a, s, n, from, save)
    requires var k := save + Span(a[..n][save..]);
             k <= n && save' == (if k == n then -1 else k + 1) && b == (if k == n then a else a[k := '\0']) && (k == n ==> a[k] == '\0')
    ensures save == from + Span(s[from..]) + 1 && Pending(b, s, n, save, save') && save <= |a| == |b| && a[..save] == b[..save]
  {
    hide Span;
    assert a[..n][save..] == a[save..n] == s[save..];
    var k := save + Span(s[save..]);
    assert b[save..k] == a[save..n][..k - save] == s[save..][..k - save] == s[save..k];
    if k < n {
      assert b[k + 1..n] == a[save..n][k + 1 - save..] == s[save..][k + 1 - save..] == s[k + 1..];
    }
  }

  lemma StartPending(a: seq<char>, b: seq<char>, s: string, n: nat, from: nat, save: int)
    requires n < |a| == |b| && a[..n] == s && Plain(s) && a[n] == '\0' && from <= n
    requires var k := from + Span(a[..n][from..]); k <= n && save == (if k == n then -1 else k + 1) && b == if k == n then a else a[k := '\0']
    ensures Pending(b, s, n, from, save)
  {
    hide Span, Plain;
    var k := from + Span(s[from..]);
    assert forall i :: 0 <= i < n ==> a[i] == a[..n][i] == s[i];
    assert forall i :: 0 <= i < n && i != k ==> b[i] == s[i];
    assert b[from..k] == s[from..k];
    if k < n {
      assert b[k + 1..n] == s[k + 1..];
    }
  }

  lemma NothingPlaced(a: seq<char>)
    ensures AllInPlace(a, [], [], [], 0)
  {
  }

  lemma OpenPending(a: seq<char>, s: string, n: nat, from: nat, save: int)
    requires Pending(a, s, n, from, save)
    ensures var k := from + Span(s[from..]);
            k <= n && |s| == n && Plain(s) && (if k == n then save == -1 else save == k + 1 <= n && Plain(a[save..n]))
  {
    hide Span;
    if save != -1 { PlainTail(s, save); }
  }

  /**
   Between two calls of next_token: the fields in done are in place, and, unless ptr is NULL,
   the one at ptr has been cut off but not pushed.
   */
  ghost predicate Splitting(a: seq<char>, s: string, n: nat, ptr: int, save: int,
                            toks: seq<nat>, ends: seq<nat>, done: seq<string>, lim: nat)
  {
    && AllInPlace(a, toks, ends, done, lim) && lim <= n + 1 && n < |a|
    && (if ptr == -1 then done == Fields(s[Leading(s)..])
        else && 0 <= ptr <= n && |s| == n && lim <= ptr
             && Fields(s[Leading(s)..]) == done + Fields(s[ptr..]) && Pending(a, s, n, ptr, save))
  }

  lemma SplitStarts(was: seq<char>, now: seq<char>, s: string, n: nat, save: int)
    requires n < |was| == |now| && was[..n] == s && Plain(s) && was[n] == '\0'
    requires Leading(s) <= n
    requires var k := Leading(s) + Span(was[..n][Leading(s)..]);
             k <= n && save == (if k == n then -1 else k + 1) && now == if k == n then was else was[k := '\0']
    ensures Splitting(now, s, n, Leading(s), save, [], [], [], 0)
  {
    hide Span, Leading, Fields, Plain, Pending;
    StartPending(was, now, s, n, Leading(s), save);
    NothingPlaced(now);
  }

  /** Pushing one field and cutting off the next. */
  lemma SplitGoesOn(was: seq<char>, now: seq<char>, s: string, n: nat, from: nat, save: int, next: int,
                    toks: seq<nat>, ends: seq<nat>, done: seq<string>, lim: nat)
    requires from <= n && Splitting(was, s, n, from, save, toks, ends, done, lim)
    requires var k := save + Span(was[..n][if save < 0 then 0 else save..]);
             if save == -1 then now == was && next == -1
             else 0 <= save <= n && k <= n && (k == n ==> was[k] == '\0')
                  && next == (if k == n then -1 else k + 1) && now == if k == n then was else was[k := '\0']
    ensures var k := from + Span(s[from..]);
            k <= n && (save == -1 || save == k + 1) &&
            Splitting(now, s, n, save, next, toks + [from], ends + [k], done + [s[from..k]], k + 1)
  {
    hide Span, Leading, Fields, CStr, Plain, Pending, AllInPlace;
    OpenPending(was, s, n, from, save);
    CutOne(s, from);
    PushInPlace(was, toks, ends, done, lim, s, n, from, save);
    var k := from + Span(s[from..]);
    var f := s[from..k];
    if k < n {
      Assoc(done, [f], Fields(s[k + 1..]));
      NextPending(was, now, s, n, from, save, next);
      StaysInPlace(was, now, toks + [from], ends + [k], done + [f], k + 1);
    }
  }

  lemma OpenSplitting(a: seq<char>, s: string, n: nat, ptr: int, save: int,
                      toks: seq<nat>, ends: seq<nat>, done: seq<string>, lim: nat)
    requires Splitting(a, s, n, ptr, save, toks, ends, done, lim)
    ensures ptr == -1 || (0 <= ptr <= n == |s| && -1 <= save <= n)
    ensures 0 <= ptr && 0 <= save ==> Plain(a[save..n]) && ptr < save
    ensures ptr == -1 ==> AllInPlace(a, toks, ends, done, lim) && done == Fields(s[Leading(s)..]) && lim <= n + 1
  {
    hide Span, Leading, Fields, CStr, Plain, AllInPlace;
    if ptr != -1 {
      OpenPending(a, s, n, ptr, save);
    }
  }

  /** The call of next_token in the loop of split, after the field at from has been pushed. */
  method SplitStep(line: array<char>, n: nat, from: nat, save0: int, ghost s: string,
                   ghost toks: seq<nat>, ghost ends: seq<nat>, ghost done: seq<string>, ghost lim: nat)
    returns (ptr: int, save: int, ghost k: nat)
    requires from <= n < line.Length && line[n] == '\0' && Splitting(line[..], s, n, from, save0, toks, ends, done, lim)
    modifies line
    ensures line[n] == '\0' && from < k <= |s| + 1 && |s| == n && (ptr == -1 || from < ptr <= n)
    ensures Splitting(line[..], s, n, ptr, save, toks + [from], ends + [k - 1], done + [s[from..k - 1]], k)
  {
    hide Span, Leading, Fields, CStr, Plain, AllInPlace, Splitting;
    ghost var was := line[..];
    OpenSplitting(was, s, n, from, save0, toks, ends, done, lim);
    ptr, save := NextToken(line, -1, save0, n);
    SplitGoesOn(was, line[..], s, n, from, save0, save, toks, ends, done, lim);
    k := from + Span(s[from..]) + 1;
  }

  /** split: the offsets of the fields, which are C strings in the line afterwards. */
  method Split(line: array<char>, n: nat) returns (toks: seq<nat>)
    requires n < line.Length && line[n] == '\0' && Plain(line[..n])
    modifies line
    ensures var s := old(line[..n]); var fields := Fields(s[Leading(s)..]);
            && |toks| == |fields|
            && forall i :: 0 <= i < |toks| ==> toks[i] <= n && CStr(line[..], toks[i]) == fields[i]
  {
    hide Span, Leading, Fields, CStr, Plain, AllInPlace, Splitting;
    ghost var s, was := line[..n], line[..];
    assert line[0..n] == s;
    var ptr, save := NextToken(line, 0, -1, n);
    toks := [];
    ghost var ends: seq<nat>, done: seq<string>, lim: nat := [], [], 0;
    SplitStarts(was, line[..], s, n, save);
    while ptr != -1
      invariant -1 <= ptr <= n && line[n] == '\0'
      invariant Splitting(line[..], s, n, ptr, save, toks, ends, done, lim)
      decreases if ptr == -1 then 0 else n + 1 - ptr
    {
      ghost var k;
      var from := ptr;
      ptr, save, k := SplitStep(line, n, from, save, s, toks, ends, done, lim);
      toks := toks + [from];
      ends, done, lim := ends + [k - 1], done + [s[from..k - 1]], k;
    }
    OpenSplitting(line[..], s, n, ptr, save, toks, ends, done, lim);
    Placed(line[..], toks, ends, done, lim);
  }

  lemma Placed(a: seq<char>, toks: seq<nat>, ends: seq<nat>, fields: seq<string>, lim: nat)
    requires AllInPlace(a, toks, ends, fields, lim)
    ensures |toks| == |fields|
    ensures forall i :: 0 <= i < |toks| ==> toks[i] < |a| && toks[i] < lim && CStr(a, toks[i]) == fields[i]
  {
    forall i | 0 <= i < |toks| ensures toks[i] < |a| && toks[i] < lim && CStr(a, toks[i]) == fields[i] {
      assert InPlace(a, toks[i], ends[i], fields[i]);
      CStrIs(a, toks[i], ends[i]);
    }
  }
}
