/** The repeatable `-request-header` and `-response-header` flag values
    (app/flags/flags.go). Each `Set` trims its argument and either rejects
    it with a flag-specific error or appends the trimmed text to the list. */
module Flags {
  import opened Wrappers
  import opened Strings

  /** The two flag types; they share the acceptance rule and differ only in
      their error values. */
  datatype HeaderFlag = RequestHeaders | ResponseHeaders

  datatype FlagError =
    | EmptyValue(flag: HeaderFlag)
    | InvalidValue(flag: HeaderFlag, value: string)

  /** The error text; the invalid-value errors wrap the sentinel with the
      trimmed value. */
  function Message(e: FlagError): (m: string)
    ensures e.EmptyValue? ==> |m| > 6 && m[..6] == "empty "
    ensures e.InvalidValue? ==>
              && |m| > 8 + |e.value| && m[..8] == "invalid "
              && m[|m| - |e.value| - 2..] == ": " + e.value
  {
    var side := if e.flag == RequestHeaders then "request" else "response";
    match e
    case EmptyValue(_) => "empty " + side + " header value"
    case InvalidValue(_, v) => "invalid " + side + " header value: " + v
  }

  /** The four sentinels are distinct texts and the invalid-value errors
      carry the value: different errors print differently. */
  lemma MessageInjective(e1: FlagError, e2: FlagError)
    requires Message(e1) == Message(e2)
    ensures e1 == e2
  {
    var m := Message(e1);
    if e1.EmptyValue? {
      assert m[0] == 'e';
      assert m[8] == (if e1.flag == RequestHeaders then 'q' else 's');
    } else {
      assert m[0] == 'i';
      assert m[10] == (if e1.flag == RequestHeaders then 'q' else 's');
      if e2.InvalidValue? && e2.flag == e1.flag {
        var k := if e1.flag == RequestHeaders then 30 else 31;
        assert m[k..] == e1.value;
        assert Message(e2)[k..] == e2.value;
      }
    }
  }

  /** The list behind the flag after a call to `Set`, and the error it
      returned, if any. */
  datatype SetOutcome = SetOutcome(list: seq<string>, err: Option<FlagError>)

  /** Exactly one colon, with text on both sides of it. */
  predicate IsColonPair(t: string) {
    && t != []
    && Count(t, ':') == 1
    && t[0] != ':'
    && t[|t| - 1] != ':'
  }

  /** What app.go relies on when it indexes a stored value: splitting it on
      ':' gives exactly two pieces, each non-empty after trimming. */
  predicate WellFormed(v: string) {
    var parts := Split(v, ':');
    |parts| == 2 && TrimSpace(parts[0]) != [] && TrimSpace(parts[1]) != []
  }

  predicate AllWellFormed(vs: seq<string>) {
    forall i :: 0 <= i < |vs| ==> WellFormed(vs[i])
  }

  /** `RequestHeadersFlag.Set` (flag `RequestHeaders`) and
      `ResponseHeadersFlag.Set` (flag `ResponseHeaders`). */
  function Set(flag: HeaderFlag, list: seq<string>, value: string): (r: SetOutcome)
    ensures r.err.None? <==> IsColonPair(TrimSpace(value))
    ensures r.err.None? ==> r.list == list + [TrimSpace(value)]
    ensures r.err.Some? ==> r.list == list
    ensures r.err == Some(EmptyValue(flag)) <==> AllSpace(value)
    ensures r.err.Some? && !AllSpace(value) ==> r.err == Some(InvalidValue(flag, TrimSpace(value)))
  {
    var t := TrimSpace(value);
    if t == "" then SetOutcome(list, Some(EmptyValue(flag)))
    else if Count(t, ':') != 1 then SetOutcome(list, Some(InvalidValue(flag, t)))
    else
      FieldsOfSingleColon(t);
      if |Fields(t, ':')| != 2 then SetOutcome(list, Some(InvalidValue(flag, t)))
      else SetOutcome(list + [t], None)
  }

  /** With exactly one colon, FieldsFunc yields two fields exactly when
      neither side of the colon is empty. */
  lemma FieldsOfSingleColon(t: string)
    requires Count(t, ':') == 1
    ensures |Fields(t, ':')| == 2 <==> t[0] != ':' && t[|t| - 1] != ':'
  {
    SplitSingle(t, ':');
    FieldsAreNonEmptyPieces(t, ':');
    var i := FirstIndex(t, ':');
    var a, b := t[..i], t[i + 1..];
    var parts := Split(t, ':');
    assert parts == [a, b];
    assert parts[1..] == [b];
    assert parts[1..][1..] == [];
    assert i == 0 <==> t[0] == ':';
    assert b != [] ==> b[|b| - 1] == t[|t| - 1];
    assert ':' !in b;
  }

  /** Every value `Set` stores splits on ':' into exactly two parts, each
      non-empty after trimming, and is itself already trimmed. */
  lemma {:induction false} StoredValueSplits(value: string)
    requires IsColonPair(TrimSpace(value))
    ensures WellFormed(TrimSpace(value))
    ensures TrimSpace(TrimSpace(value)) == TrimSpace(value)
  {
    var t := TrimSpace(value);
    SplitSingle(t, ':');
    var i := FirstIndex(t, ':');
    var a, b := t[..i], t[i + 1..];
    assert a != [] && a[0] == t[0];
    assert b != [] && b[|b| - 1] == t[|t| - 1];
    TrimSpaceNonEmpty(a);
    TrimSpaceNonEmpty(b);
    TrimSpaceIdempotent(value);
  }

  /** `Set` keeps every list it extends well formed. */
  lemma SetKeepsWellFormed(flag: HeaderFlag, list: seq<string>, value: string)
    requires AllWellFormed(list)
    ensures AllWellFormed(Set(flag, list, value).list)
  {
    var r := Set(flag, list, value);
    if r.err.None? {
      var t := TrimSpace(value);
      StoredValueSplits(value);
      assert r.list == list + [t];
      forall i | 0 <= i < |r.list|
        ensures WellFormed(r.list[i])
      {
        if i < |list| {
          assert r.list[i] == list[i];
        } else {
          assert r.list[i] == t;
        }
      }
    }
  }

  /** The converse of `StoredValueSplits`: a name and a value without
      colons, joined by one colon, with no white space at the two ends, are
      stored exactly as given. */
  lemma SetAcceptsPair(flag: HeaderFlag, list: seq<string>, name: string, value: string)
    requires name != [] && value != []
    requires ':' !in name && ':' !in value
    requires !IsSpace(name[0]) && !IsSpace(value[|value| - 1])
    ensures Set(flag, list, name + ":" + value) == SetOutcome(list + [name + ":" + value], None)
  {
    var v := name + ":" + value;
    assert v[0] == name[0] && v[|v| - 1] == value[|value| - 1];
    TrimSpaceKeeps(v);
    CountAfter(name, ':', value);
  }

  /** A value with a second colon is refused, whatever follows it. */
  lemma SetRefusesTwoColons(flag: HeaderFlag, list: seq<string>, a: string, b: string, c: string)
    requires a != [] && c != [] && !IsSpace(a[0]) && !IsSpace(c[|c| - 1])
    requires ':' !in a && ':' !in b
    ensures var v := a + ":" + b + ":" + c;
            Set(flag, list, v) == SetOutcome(list, Some(InvalidValue(flag, v)))
  {
    var v := a + ":" + b + ":" + c;
    assert v == a + [':'] + (b + [':'] + c);
    assert v[0] == a[0] && v[|v| - 1] == c[|c| - 1];
    TrimSpaceKeeps(v);
    CountAfter(a, ':', b + [':'] + c);
    CountAfter(b, ':', c);
  }

  // The flag's documented cases: a blank value and a value without a colon
  // are refused, `foo:bar:baz` is refused and `foo:bar` is stored.

  lemma SetRefusesBlank(flag: HeaderFlag)
    ensures Set(flag, [], "").err == Some(EmptyValue(flag))
    ensures Set(flag, [], " \t").err == Some(EmptyValue(flag))
  {
    assert AllSpace(" \t");
  }

  lemma SetRefusesNoColon(flag: HeaderFlag)
    ensures Set(flag, [], "foobar").err == Some(InvalidValue(flag, "foobar"))
    ensures Set(flag, [], "foo;bar").err == Some(InvalidValue(flag, "foo;bar"))
  {
    var v := "foobar";
    assert !IsSpace(v[0]) && !IsSpace(v[5]);
    assert ':' !in v;
    var w := "foo;bar";
    assert !IsSpace(w[0]) && !IsSpace(w[6]);
    assert ':' !in w;
  }

  lemma SetExampleTwoColons(flag: HeaderFlag)
    ensures Set(flag, [], "foo:bar:baz").err.Some?
  {
    assert "foo" + ":" + "bar" + ":" + "baz" == "foo:bar:baz";
    assert !IsSpace("foo"[0]) && !IsSpace("baz"[2]);
    assert ':' !in "foo" && ':' !in "bar";
    SetRefusesTwoColons(flag, [], "foo", "bar", "baz");
  }

  lemma SetExamplePair(flag: HeaderFlag)
    ensures Set(flag, [], "foo:bar") == SetOutcome(["foo:bar"], None)
  {
    assert "foo" + ":" + "bar" == "foo:bar";
    assert !IsSpace("foo"[0]) && !IsSpace("bar"[2]);
    assert ':' !in "foo" && ':' !in "bar";
    SetAcceptsPair(flag, [], "foo", "bar");
  }

  /** The two flag types accept and reject exactly the same inputs and
      store the same text; only the identity of the error differs. */
  lemma SameAcceptance(list: seq<string>, value: string)
    ensures Set(RequestHeaders, list, value).list == Set(ResponseHeaders, list, value).list
    ensures Set(RequestHeaders, list, value).err.None? <==> Set(ResponseHeaders, list, value).err.None?
  {
  }
}
