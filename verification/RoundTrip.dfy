/** What can be written on a command line, and that one flag argument, written, is read back. */
module RoundTrip {
  import opened Text
  import opened Wrappers
  import opened Flags
  import opened Grammar

  // ----- what can be written ----------------------------------------------------------------------

  /** What registration guarantees of a command's flags. */
  ghost predicate Distinct(flags: seq<Flag>) {
    && (forall f <- flags :: f.name != "" && f.name != "help" && f.short != 'h')
    && (forall f <- flags, g <- flags :: f.name == g.name ==> f == g)
    && (forall f <- flags, g <- flags :: f.short == g.short != NO_SHORT ==> f == g)
  }

  /** What it does not check: no name continues another name, or help, with an equals sign. */
  ghost predicate NoneExtends(flags: seq<Flag>) {
    && (forall f <- flags :: !("help=" <= f.name))
    && (forall f <- flags, g <- flags :: !(f.name + "=" <= g.name))
  }

  /** Names that the parser can tell apart. */
  ghost predicate WellNamed(flags: seq<Flag>) {
    Distinct(flags) && NoneExtends(flags)
  }

  ghost predicate ValidTail(flags: seq<Flag>, t: Tail) {
    match t
    case HelpOff(v) => ParseBool(v) == 0
    case Bare(f) => f in flags && Boolish(f)
    case Equals(f, v) => f in flags
    case Separate(f, v) => f in flags && !Boolish(f)
    case Inline(f, v) => f in flags && !Boolish(f) && v != "" && v[0] != '='
  }

  predicate HasShort(t: Tail) {
    t.HelpOff? || t.flag.short != NO_SHORT
  }

  function TailLetter(t: Tail): char {
    if t.HelpOff? then 'h' else t.flag.short
  }

  /** '=' can be the letter of a flag only where it comes first; after a letter it starts a value. */
  predicate NoInnerEquals(c: seq<Flag>, t: Tail) {
    && (forall k :: 1 <= k < |c| ==> c[k].short != '=')
    && (c != [] ==> TailLetter(t) != '=')
  }

  ghost predicate Unknown(flags: seq<Flag>, a: string) {
    if LongForm(a) then
      a != "--help" && !("--help=" <= a) && FindLong(flags, a[2..]).None?
    else
      ShortForm(a) && a != "-h" && !("-h=" <= a) && FindShort(flags, a[1]).None?
  }

  ghost predicate ValidItem(flags: seq<Flag>, allow: bool, item: Item) {
    match item
    case Positional(t) => !FlagForm(t)
    case PassThrough(t) => allow && Unknown(flags, t)
    case Long(t) => ValidTail(flags, t) && !t.Inline?
    case Short(c, t) =>
      && ValidTail(flags, t) && HasShort(t)
      && (forall f <- c :: f in flags && Boolish(f) && f.short != NO_SHORT)
      && NoInnerEquals(c, t) && (Letters(c) + WriteShortTail(t))[0] != '-'
  }

  // ----- one flag, written and read -----------------------------------------------------------------

  /** A flag that matches an argument, and another one with a longer name. */
  lemma LongerMatchExtends(f: Flag, g: Flag, body: string)
    requires MatchesLong(f, body) && MatchesLong(g, body) && |f.name| < |g.name|
    ensures f.name + "=" <= g.name
  {
    assert g.name == body[..|g.name|];
    assert f.name == g.name[..|f.name|] && g.name[|f.name|] == '=';
  }

  /** In a well-named command at most one flag matches any long argument. */
  lemma AtMostOneLongMatch(flags: seq<Flag>, f: Flag, g: Flag, body: string)
    requires WellNamed(flags) && f in flags && g in flags && MatchesLong(f, body) && MatchesLong(g, body)
    ensures f == g
  {
    if |f.name| < |g.name| {
      LongerMatchExtends(f, g, body);
    } else if |g.name| < |f.name| {
      LongerMatchExtends(g, f, body);
    } else {
      assert f.name == body[..|f.name|] && g.name == body[..|g.name|];
    }
  }

  /** Hence lookup does not depend on the order of registration. */
  lemma LookupIgnoresOrder(flags: seq<Flag>, others: seq<Flag>, body: string, c: char)
    requires WellNamed(flags) && forall f :: f in flags <==> f in others
    ensures FindLong(flags, body) == FindLong(others, body)
    ensures FindShort(flags, c) == FindShort(others, c)
  {
    var a, b := FindLong(flags, body), FindLong(others, body);
    FoundLong(flags, body);
    FoundLong(others, body);
    FoundShort(flags, c);
    FoundShort(others, c);
    if a.Some? && b.Some? {
      AtMostOneLongMatch(flags, a.value, b.value, body);
    }
  }

  lemma NameIsFound(flags: seq<Flag>, f: Flag, v: string)
    requires WellNamed(flags) && f in flags
    ensures FindLong(flags, f.name) == Some(f)
    ensures FindLong(flags, f.name + "=" + v) == Some(f)
  {
    var body := f.name + "=" + v;
    assert body[|f.name|] == '=' && body[..|f.name|] == f.name;
    FoundLong(flags, body);
    FoundLong(flags, f.name);
    AtMostOneLongMatch(flags, f, FindLong(flags, body).value, body);
    AtMostOneLongMatch(flags, f, FindLong(flags, f.name).value, f.name);
  }

  lemma ShortIsFound(flags: seq<Flag>, f: Flag)
    requires Distinct(flags) && f in flags && f.short != NO_SHORT
    ensures FindShort(flags, f.short) == Some(f)
  {
    assert MatchesShort(f, f.short);
    FoundShort(flags, f.short);
  }

  predicate NextFits(t: Tail, next: Option<string>) {
    t.Separate? ==> next == Some(t.value)
  }

  lemma LongIsRead(flags: seq<Flag>, t: Tail, next: Option<string>, allow: bool)
    requires WellNamed(flags) && ValidTail(flags, t) && !t.Inline? && NextFits(t, next)
    ensures WriteLongTail(t) != "" && ReadLong(flags, WriteLongTail(t), next, allow) == Got(Long(t))
  {
    var body := WriteLongTail(t);
    if t.HelpOff? {
      assert body[5..] == t.value && "help=" <= body;
    } else {
      var f := t.flag;
      NameIsFound(flags, f, if t.Equals? then t.value else "");
      NotHelp(f.name, if t.Equals? then t.value else "");
      if t.Equals? {
        assert body[|f.name| + 1..] == t.value;
      }
    }
  }

  lemma NotHelp(name: string, v: string)
    requires name != "help" && !("help=" <= name)
    ensures name + "=" + v != "help" && !("help=" <= name + "=" + v)
  {
    var body := name + "=" + v;
    assert body[|name|] == '=' && body[..|name|] == name;
    if |name| >= 5 {
      assert body[..5] == name[..5];
    } else if |name| == 4 {
      assert body[..4] == name;
    }
  }

  /** What follows the dash is read letter by letter up to the tail, if and only if no letter
  after the first is '='. */
  lemma {:induction false} ClusterIsReadIff(flags: seq<Flag>, done: seq<Flag>, c: seq<Flag>, t: Tail,
                                            next: Option<string>, allow: bool)
    requires Distinct(flags) && ValidTail(flags, t) && HasShort(t) && NextFits(t, next)
    requires forall f <- c :: f in flags && Boolish(f) && f.short != NO_SHORT
    ensures ReadShort(flags, Letters(c) + WriteShortTail(t), next, allow, done) == Got(Short(done + c, t)) <==>
            NoInnerEquals(c, t)
    decreases |c|
  {
    hide ReadShort, Distinct;
    var tail := WriteShortTail(t);
    var body := Letters(c) + tail;
    if c == [] {
      assert body == tail && done + c == done;
      TailIsRead(flags, done, t, next, allow);
    } else {
      var f, rest := c[0], Letters(c[1..]) + tail;
      assert f in c && body == [f.short] + rest;
      FirstLetter(c[1..], t);
      if rest[0] == '=' {
        ValueIsRead(flags, done, f, rest, next, allow);
        assert |done + c| > |done|;
      } else {
        LetterIsRead(flags, done, f, rest, next, allow);
        ClusterIsReadIff(flags, done + [f], c[1..], t, next, allow);
        assert done + [f] + c[1..] == done + c;
        NoInnerEqualsStep(c, t);
      }
    }
  }

  /** A written short argument is read back if and only if no letter after the first is '=' and
  the first is not '-', which would make it a long argument, or no flag at all. */
  lemma ShortArgumentIsReadIff(flags: seq<Flag>, c: seq<Flag>, t: Tail, next: Option<string>, allow: bool)
    requires Distinct(flags) && ValidTail(flags, t) && HasShort(t) && NextFits(t, next)
    requires forall f <- c :: f in flags && Boolish(f) && f.short != NO_SHORT
    ensures var a := Write(Short(c, t))[0];
      ShortForm(a) && ReadFlag(flags, a, next, allow) == Got(Short(c, t)) <==>
      NoInnerEquals(c, t) && (Letters(c) + WriteShortTail(t))[0] != '-'
  {
    hide Distinct, ReadShort, ReadLong;
    var a, body := Write(Short(c, t))[0], Letters(c) + WriteShortTail(t);
    assert a == "-" + body && a[1..] == body;
    FirstLetter(c, t);
    ClusterIsReadIff(flags, [], c, t, next, allow);
    assert [] + c == c;
  }

  lemma NoInnerEqualsStep(c: seq<Flag>, t: Tail)
    requires c != [] && (if |c| > 1 then c[1].short else TailLetter(t)) != '='
    ensures NoInnerEquals(c, t) <==> NoInnerEquals(c[1..], t)
  {
    if NoInnerEquals(c[1..], t) {
      forall k | 1 <= k < |c| ensures c[k].short != '=' {
        assert c[k] == c[1..][k - 1];
      }
    }
  }

  lemma LetterIsRead(flags: seq<Flag>, done: seq<Flag>, f: Flag, rest: string, next: Option<string>, allow: bool)
    requires Distinct(flags) && f in flags && Boolish(f) && f.short != NO_SHORT && rest != "" && rest[0] != '='
    ensures ReadShort(flags, [f.short] + rest, next, allow, done) == ReadShort(flags, rest, next, allow, done + [f])
  {
    var body := [f.short] + rest;
    assert body[0] == f.short != 'h' && body[1] == rest[0] && body[1..] == rest;
    ShortIsFound(flags, f);
  }

  /** After a letter, '=' starts the value of its flag. */
  lemma ValueIsRead(flags: seq<Flag>, done: seq<Flag>, f: Flag, rest: string, next: Option<string>, allow: bool)
    requires Distinct(flags) && f in flags && f.short != NO_SHORT && rest != "" && rest[0] == '='
    ensures ReadShort(flags, [f.short] + rest, next, allow, done) == Got(Short(done, Equals(f, rest[1..])))
  {
    var body := [f.short] + rest;
    assert body[0] == f.short != 'h' && body[1] == rest[0] && body[2..] == rest[1..];
    ShortIsFound(flags, f);
  }

  lemma FirstLetter(c: seq<Flag>, t: Tail)
    ensures var body := Letters(c) + WriteShortTail(t);
      body != "" && body[0] == if c != [] then c[0].short else TailLetter(t)
  {}

  lemma TailIsRead(flags: seq<Flag>, done: seq<Flag>, t: Tail, next: Option<string>, allow: bool)
    requires Distinct(flags) && ValidTail(flags, t) && HasShort(t) && NextFits(t, next)
    ensures ReadShort(flags, WriteShortTail(t), next, allow, done) == Got(Short(done, t))
  {
    var body := WriteShortTail(t);
    match t {
      case HelpOff(v) => assert body[2..] == v && "h=" <= body;
      case Equals(f, v) =>
        ShortIsFound(flags, f);
        assert body[0] == f.short && body[1] == '=' && body[2..] == v;
        assert !("h=" <= body);
      case Inline(f, v) =>
        ShortIsFound(flags, f);
        assert body[1..] == v && body[1] == v[0];
      case _ => ShortIsFound(flags, t.flag);
    }
  }
}
