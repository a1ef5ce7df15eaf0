/** `_html_escape` (doxyfront/model.py:24-29): five `str.replace` calls, `&` first. */
module HtmlEscape {
  import opened Strings

  /** The five characters the escape rewrites, in the order it rewrites them. */
  const EscapeOrder: seq<char> := ['&', '<', '>', '"', '\'']

  /** The order a decoder undoes them in: `&amp;` last. */
  const DecodeOrder: seq<char> := ['<', '>', '"', '\'', '&']

  predicate Special(c: char)
  {
    c == '&' || c == '<' || c == '>' || c == '"' || c == '\''
  }

  /** The entity that stands for a special character; any other character stands for itself. */
  function Entity(c: char): string
  {
    if c == '&' then "&amp;"
    else if c == '<' then "&lt;"
    else if c == '>' then "&gt;"
    else if c == '"' then "&quot;"
    else if c == '\'' then "&apos;"
    else [c]
  }

  /** `_html_escape(s)`, as written: the five replacements in sequence. */
  function Escape(s: string): string
  {
    Replace(Replace(Replace(Replace(Replace(s, "&", "&amp;"), "<", "&lt;"), ">", "&gt;"), "\"", "&quot;"), "'", "&apos;")
  }

  /** Decoding the five entities by `str.replace`, with `&amp;` decoded last. */
  function Unescape(s: string): string
  {
    Replace(Replace(Replace(Replace(Replace(s, "&lt;", "<"), "&gt;", ">"), "&quot;", "\""), "&apos;", "'"), "&amp;", "&")
  }

  /** Every character replaced by its entity: the escape seen one character at a time. */
  function EntityWise(s: string): string
  {
    if s == [] then [] else Entity(s[0]) + EntityWise(s[1..])
  }

  // ---- the escape, one replacement at a time -------------------------------------------

  /** The chunk a character has become after the first `n` escape replacements. */
  function EscChunk(c: char, n: nat): string
    requires n <= 5
  {
    if c in EscapeOrder[..n] then Entity(c) else [c]
  }

  function EscStage(s: string, n: nat): string
    requires n <= 5
  {
    if s == [] then [] else EscChunk(s[0], n) + EscStage(s[1..], n)
  }

  lemma {:induction false} EscStageZero(s: string)
    ensures EscStage(s, 0) == s
  {
    if s != [] {
      EscStageZero(s[1..]);
      assert EscChunk(s[0], 0) == [s[0]];
      assert [s[0]] + s[1..] == s;
    }
  }

  lemma {:induction false} EscStageFive(s: string)
    ensures EscStage(s, 5) == EntityWise(s)
  {
    assert EscapeOrder[..5] == EscapeOrder;
    if s != [] {
      EscStageFive(s[1..]);
      assert EscChunk(s[0], 5) == Entity(s[0]);
    }
  }

  /** No chunk of stage `n` holds the character the `n`-th replacement looks for. */
  lemma EscChunkAvoids(c: char, n: nat)
    requires n < 5 && c != EscapeOrder[n]
    ensures EscapeOrder[n] !in EscChunk(c, n)
  {
  }

  lemma {:induction false} EscStep(s: string, n: nat)
    requires n < 5
    ensures Replace(EscStage(s, n), [EscapeOrder[n]], Entity(EscapeOrder[n])) == EscStage(s, n + 1)
  {
    var p := [EscapeOrder[n]];
    var e := Entity(EscapeOrder[n]);
    if s != [] {
      var rest := EscStage(s[1..], n);
      EscStep(s[1..], n);
      if s[0] == EscapeOrder[n] {
        assert s[0] !in EscapeOrder[..n];
        assert EscChunk(s[0], n) == p;
        ReplaceHead(rest, p, e);
        assert EscChunk(s[0], n + 1) == e;
      } else {
        EscChunkAvoids(s[0], n);
        ReplaceSkip(EscChunk(s[0], n), rest, p, e);
        assert EscChunk(s[0], n + 1) == EscChunk(s[0], n);
      }
    }
  }

  /** The `n`-th escape replacement, with its pattern and replacement spelled out. */
  lemma EscStepBy(s: string, n: nat, p: string, e: string)
    requires n < 5 && p == [EscapeOrder[n]] && e == Entity(EscapeOrder[n])
    ensures Replace(EscStage(s, n), p, e) == EscStage(s, n + 1)
  {
    EscStep(s, n);
  }

  /** The five sequential replacements act character by character. */
  lemma EscapeIsEntityWise(s: string)
    ensures Escape(s) == EntityWise(s)
  {
    var s1 := Replace(s, "&", "&amp;");
    var s2 := Replace(s1, "<", "&lt;");
    var s3 := Replace(s2, ">", "&gt;");
    var s4 := Replace(s3, "\"", "&quot;");
    assert s1 == EscStage(s, 1) by {
      EscStageZero(s);
      EscStepBy(s, 0, "&", "&amp;");
    }
    assert s2 == EscStage(s, 2) by {
      EscStepBy(s, 1, "<", "&lt;");
    }
    assert s3 == EscStage(s, 3) by {
      EscStepBy(s, 2, ">", "&gt;");
    }
    assert s4 == EscStage(s, 4) by {
      EscStepBy(s, 3, "\"", "&quot;");
    }
    assert Replace(s4, "'", "&apos;") == EntityWise(s) by {
      EscStepBy(s, 4, "'", "&apos;");
      EscStageFive(s);
    }
  }

  // ---- the decoder, one replacement at a time ------------------------------------------

  /** The chunk a character's entity has become after the first `m` decoding replacements. */
  function UnChunk(c: char, m: nat): string
    requires m <= 5
  {
    if c in DecodeOrder[..m] then [c] else Entity(c)
  }

  function UnStage(s: string, m: nat): string
    requires m <= 5
  {
    if s == [] then [] else UnChunk(s[0], m) + UnStage(s[1..], m)
  }

  lemma {:induction false} UnStageZero(s: string)
    ensures UnStage(s, 0) == EntityWise(s)
  {
    if s != [] {
      UnStageZero(s[1..]);
    }
  }

  lemma {:induction false} UnStageFive(s: string)
    ensures UnStage(s, 5) == s
  {
    if s != [] {
      UnStageFive(s[1..]);
      assert DecodeOrder[..5] == DecodeOrder;
      assert UnChunk(s[0], 5) == [s[0]];
      assert [s[0]] + s[1..] == s;
    }
  }

  /** An entity never starts with a different entity, however the text continues. */
  lemma EntityMismatch(a: char, b: char, rest: string)
    requires Special(a) && Special(b) && a != b
    ensures !(Entity(a) <= Entity(b) + rest)
  {
    var x, y := Entity(a), Entity(b) + rest;
    assert y[1] == Entity(b)[1] && y[2] == Entity(b)[2];
    assert x[1] != y[1] || x[2] != y[2];
  }

  /** One character's chunk through the `m`-th decoding replacement. */
  lemma UnChunkStep(c: char, m: nat, rest: string)
    requires m < 5
    ensures Replace(UnChunk(c, m) + rest, Entity(DecodeOrder[m]), [DecodeOrder[m]])
         == UnChunk(c, m + 1) + Replace(rest, Entity(DecodeOrder[m]), [DecodeOrder[m]])
  {
    var p := Entity(DecodeOrder[m]);
    var d := [DecodeOrder[m]];
    assert p[0] == '&';
    if c == DecodeOrder[m] {
      assert c !in DecodeOrder[..m];
      assert UnChunk(c, m) == p;
      ReplaceHead(rest, p, d);
    } else if c in DecodeOrder[..m] || !Special(c) {
      assert UnChunk(c, m) == [c] == UnChunk(c, m + 1);
      ReplaceSkip(UnChunk(c, m), rest, p, d);
    } else {
      EntityChunkStep(c, DecodeOrder[m], rest);
      assert UnChunk(c, m) == Entity(c) == UnChunk(c, m + 1);
    }
  }

  /** Every entity is `&` followed by text without `&`. */
  lemma EntityShape(c: char)
    requires Special(c)
    ensures |Entity(c)| > 1 && Entity(c)[0] == '&' && '&' !in Entity(c)[1..]
  {
  }

  /** An entity other than the pattern is copied unchanged. */
  lemma EntityChunkStep(c: char, q: char, rest: string)
    requires Special(c) && Special(q) && c != q
    ensures Replace(Entity(c) + rest, Entity(q), [q]) == Entity(c) + Replace(rest, Entity(q), [q])
  {
    EntityMismatch(q, c, rest);
    EntityShape(c);
    EntityShape(q);
    ReplaceSkipTail(Entity(c), rest, Entity(q), [q]);
  }

  lemma {:induction false} UnStep(s: string, m: nat)
    requires m < 5
    ensures Replace(UnStage(s, m), Entity(DecodeOrder[m]), [DecodeOrder[m]]) == UnStage(s, m + 1)
  {
    if s != [] {
      UnStep(s[1..], m);
      UnChunkStep(s[0], m, UnStage(s[1..], m));
    }
  }

  /** The `m`-th decoding replacement, with its pattern and replacement spelled out. */
  lemma UnStepBy(s: string, m: nat, p: string, d: string)
    requires m < 5 && p == Entity(DecodeOrder[m]) && d == [DecodeOrder[m]]
    ensures Replace(UnStage(s, m), p, d) == UnStage(s, m + 1)
  {
    UnStep(s, m);
  }

  lemma UnescapeEntityWise(s: string)
    ensures Unescape(EntityWise(s)) == s
  {
    var t1 := Replace(EntityWise(s), "&lt;", "<");
    var t2 := Replace(t1, "&gt;", ">");
    var t3 := Replace(t2, "&quot;", "\"");
    var t4 := Replace(t3, "&apos;", "'");
    assert t1 == UnStage(s, 1) by {
      UnStageZero(s);
      UnStepBy(s, 0, "&lt;", "<");
    }
    assert t2 == UnStage(s, 2) by {
      UnStepBy(s, 1, "&gt;", ">");
    }
    assert t3 == UnStage(s, 3) by {
      UnStepBy(s, 2, "&quot;", "\"");
    }
    assert t4 == UnStage(s, 4) by {
      UnStepBy(s, 3, "&apos;", "'");
    }
    assert Replace(t4, "&amp;", "&") == s by {
      UnStepBy(s, 4, "&amp;", "&");
      UnStageFive(s);
    }
  }

  // ---- what the escape promises ---------------------------------------------------------

  /** Decoding the five entities, `&amp;` last, gives back the input. */
  lemma EscapeRoundTrip(s: string)
    ensures Unescape(Escape(s)) == s
  {
    EscapeIsEntityWise(s);
    UnescapeEntityWise(s);
  }

  lemma {:induction false} EntityWiseClean(s: string)
    ensures forall i :: 0 <= i < |EntityWise(s)| ==> EntityWise(s)[i] !in {'<', '>', '"', '\''}
  {
    if s != [] {
      EntityWiseClean(s[1..]);
      var e := Entity(s[0]);
      assert forall i :: 0 <= i < |e| ==> e[i] !in {'<', '>', '"', '\''};
    }
  }

  /** The output holds none of `<`, `>`, `"` and `'`. */
  lemma EscapeClean(s: string)
    ensures forall i :: 0 <= i < |Escape(s)| ==> Escape(s)[i] !in {'<', '>', '"', '\''}
  {
    EscapeIsEntityWise(s);
    EntityWiseClean(s);
  }

  lemma {:induction false} EntityWiseAppend(a: string, b: string)
    ensures EntityWise(a + b) == EntityWise(a) + EntityWise(b)
  {
    if a != [] {
      assert (a + b)[0] == a[0];
      assert (a + b)[1..] == a[1..] + b;
      EntityWiseAppend(a[1..], b);
    } else {
      assert a + b == b;
    }
  }

  /** Escaping distributes over concatenation. */
  lemma EscapeAppend(a: string, b: string)
    ensures Escape(a + b) == Escape(a) + Escape(b)
  {
    EscapeIsEntityWise(a + b);
    EscapeIsEntityWise(a);
    EscapeIsEntityWise(b);
    EntityWiseAppend(a, b);
  }
}
