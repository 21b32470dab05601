/**
 The `contains` Logstash filter: an event matches when one of the values its
 `field` templates resolve to is a member of a reference set of strings. The
 set is either the configured `value` list or the pieces of the file at
 `value_path`, which is re-read every `refresh_interval` seconds.

 The read/write lock of the plugin is left out: the write-locked blocks are
 plain sequential calls here. The clock, the file and the template
 interpolation of the host are parameters of the operations.
 */
module Contains {
  import opened Wrappers
  import opened RubySplit

  /** What reading the reference file gave: its whole text, or a failure to
      open or read it. */
  datatype FileRead = Contents(text: string) | IoError

  /** The `LogStash::ConfigurationError`s that `register` raises. */
  datatype ConfigError =
    | MutuallyExclusive  // both `value` and `value_path` are configured
    | InvalidFile        // the first load of `value_path` failed

  /** What one call of `load_file` did. */
  datatype LoadOutcome =
    | Replaced  // the file gave at least one piece; the set was swapped for them
    | Retained  // the load failed; the previous set stays and the error is logged
    | Raised    // the load failed and there was no previous set: a configuration error

  /** What `filter` did with one event. */
  datatype Verdict =
    | Matched      // `filter_matched` was signalled, once
    | Unmatched    // no resolved value is in the set
    | NilValueSet  // `member?` was sent to the unassigned set: a NoMethodError

  /** `xs.to_set`: duplicates collapse and order is forgotten. */
  function ToSet(xs: seq<string>): (r: set<string>)
    ensures forall x :: x in r <==> x in xs
    ensures |r| <= |xs|
  {
    if xs == [] then {} else {xs[0]} + ToSet(xs[1..])
  }

  /** Distinct values give a set of exactly as many elements. */
  lemma {:induction false} ToSetOfDistinct(xs: seq<string>)
    requires forall i, j :: 0 <= i < j < |xs| ==> xs[i] != xs[j]
    ensures |ToSet(xs)| == |xs|
  {
    if xs != [] {
      ToSetOfDistinct(xs[1..]);
      assert xs[0] !in xs[1..];
      assert xs[0] !in ToSet(xs[1..]);
    }
  }

  /**
   The file half of `load_file`: the new set, or None when the load fails.
   It fails when the file cannot be read, and when its text splits into no
   pieces: that branch assigns `set`, a name defined nowhere, so Ruby raises
   a NameError there, which the bare `rescue` of `load_file` catches like an
   I/O error.
   */
  function Parse(file: FileRead, sep: string): (r: Option<set<string>>)
    requires LiteralSeparator(sep)
    ensures r.Some? <==> file.Contents? && Split(file.text, sep) != []
    ensures r.Some? ==> forall x :: x in r.value <==> x in Split(file.text, sep)
  {
    match file
    case IoError => None
    case Contents(text) =>
      var temporary := Split(text, sep);
      if temporary != [] then Some(ToSet(temporary)) else None
  }

  /** A file made of separable, distinct pieces, the last one non-empty, loads
      as exactly those pieces: each is a member and nothing else is. */
  lemma LoadJoined(ps: seq<string>, sep: string)
    requires LiteralSeparator(sep) && ps != []
    requires forall i :: 0 <= i < |ps| ==> Separable(ps[i], sep)
    requires ps[|ps| - 1] != ""
    requires forall i, j :: 0 <= i < j < |ps| ==> ps[i] != ps[j]
    ensures Parse(Contents(Join(ps, sep)), sep).Some?
    ensures forall x :: x in Parse(Contents(Join(ps, sep)), sep).value <==> x in ps
    ensures |Parse(Contents(Join(ps, sep)), sep).value| == |ps|
  {
    SplitOfJoin(ps, sep);
    ToSetOfDistinct(ps);
  }

  /** `field.compact!`: the values whose template resolved, in `field` order. */
  function Present(xs: seq<Option<string>>): (r: seq<string>)
    ensures |r| <= |xs|
    ensures forall s :: s in r <==> Some(s) in xs
  {
    if xs == [] then []
    else (if xs[0].Some? then [xs[0].value] else []) + Present(xs[1..])
  }

  /** Compacting keeps the order of the fields: it distributes over concatenation. */
  lemma {:induction false} PresentAppend(xs: seq<Option<string>>, ys: seq<Option<string>>)
    ensures Present(xs + ys) == Present(xs) + Present(ys)
    decreases |xs|
  {
    if xs != [] {
      var head := if xs[0].Some? then [xs[0].value] else [];
      assert (xs + ys)[0] == xs[0];
      assert (xs + ys)[1..] == xs[1..] + ys;
      PresentAppend(xs[1..], ys);
      assert Present(xs + ys) == head + (Present(xs[1..]) + Present(ys));
      assert Present(xs) == head + Present(xs[1..]);
      assert head + (Present(xs[1..]) + Present(ys)) == (head + Present(xs[1..])) + Present(ys);
    } else {
      assert xs + ys == ys;
    }
  }

  lemma PresentOne(v: string)
    ensures Present([Some(v)]) == [v]
  {
  }

  /** The `field.each` scan: the index of the first value that is a member,
      after which the scan stops, or None when no value is. */
  method FirstMember(values: seq<string>, active: set<string>) returns (hit: Option<nat>)
    ensures hit.Some? ==> hit.value < |values| && values[hit.value] in active
    ensures hit.Some? ==> forall j :: 0 <= j < hit.value ==> values[j] !in active
    ensures hit.None? <==> forall j :: 0 <= j < |values| ==> values[j] !in active
  {
    for i := 0 to |values|
      invariant forall j :: 0 <= j < i ==> values[j] !in active
    {
      if values[i] in active {
        return Some(i);
      }
    }
    return None;
  }

  /** One configured instance of the filter. */
  class Filter {
    /** `value`: the reference values of static mode, empty when not configured. */
    const value: seq<string>
    /** `value_path`: the reference file of file mode. */
    const valuePath: Option<string>
    /** `refresh_interval`, in whole seconds. */
    const refreshInterval: int
    /** `separator` between the values in the reference file. */
    const separator: string

    /** `@value_set`, None while it is unassigned (nil). */
    var valueSet: Option<set<string>>
    /** `@next_refresh`, None while it is unassigned (nil). */
    var nextRefresh: Option<int>
    /** How many times the file has been loaded; the plugin keeps no such count. */
    ghost var loads: nat

    /** The plugin as Logstash builds it from its configuration, before `register`. */
    constructor (value: seq<string>, valuePath: Option<string>, refreshInterval: int, separator: string)
      requires LiteralSeparator(separator)
      ensures this.value == value && this.valuePath == valuePath
      ensures this.refreshInterval == refreshInterval && this.separator == separator
      ensures valueSet == None && nextRefresh == None && loads == 0
    {
      this.value := value;
      this.valuePath := valuePath;
      this.refreshInterval := refreshInterval;
      this.separator := separator;
      valueSet := None;
      nextRefresh := None;
      loads := 0;
    }

    /** The state a successful `register` leaves and every `filter` keeps. */
    ghost predicate Registered()
      reads this
    {
      && LiteralSeparator(separator)
      && if valuePath.Some? then
           value == [] && valueSet.Some? && nextRefresh.Some?
         else
           nextRefresh == None && valueSet == (if value == [] then None else Some(ToSet(value)))
    }

    /** `needs_refresh?`: the deadline has strictly passed. */
    predicate NeedsRefresh(now: int)
      reads this
      requires nextRefresh.Some?
    {
      nextRefresh.value < now
    }

    /** `register`: checks the configuration and installs the first set. */
    method Register(now: int, file: FileRead) returns (err: Option<ConfigError>)
      requires LiteralSeparator(separator)
      requires valueSet == None && nextRefresh == None
      modifies this
      ensures err == Some(MutuallyExclusive) <==> valuePath.Some? && value != []
      ensures err == Some(MutuallyExclusive) ==>
                valueSet == None && nextRefresh == None && loads == old(loads)
      ensures valuePath.None? ==>
                err == None && Registered() && loads == old(loads) &&
                valueSet == (if value == [] then None else Some(ToSet(value)))
      ensures valuePath.Some? && value == [] ==>
                && nextRefresh == Some(now + refreshInterval)
                && loads == old(loads) + 1
                && err == (if Parse(file, separator).None? then Some(InvalidFile) else None)
                && (err == None ==> valueSet == Parse(file, separator) && Registered())
                && (err == Some(InvalidFile) ==> valueSet == None)
    {
      if valuePath.Some? && value != [] {
        return Some(MutuallyExclusive);
      }
      if value != [] {
        valueSet := Some(ToSet(value));
      }
      err := None;
      if valuePath.Some? {
        nextRefresh := Some(now + refreshInterval);
        var outcome := LoadFile(file);
        if outcome == Raised {
          err := Some(InvalidFile);
        }
      }
    }

    /** `load_file`: replaces the set wholesale with the file's pieces, or
        keeps the previous set when the load fails, or raises when there is none. */
    method LoadFile(file: FileRead) returns (outcome: LoadOutcome)
      requires LiteralSeparator(separator)
      modifies this`valueSet, this`loads
      ensures loads == old(loads) + 1
      ensures Parse(file, separator).Some? ==>
                outcome == Replaced && valueSet == Parse(file, separator)
      ensures outcome == Replaced ==>
                && file.Contents? && valueSet.Some?
                && forall x :: x in valueSet.value <==> x in Split(file.text, separator)
      ensures Parse(file, separator).None? ==>
                && valueSet == old(valueSet)
                && outcome == (if old(valueSet).Some? then Retained else Raised)
    {
      loads := loads + 1;
      var parsed := Parse(file, separator);
      if parsed.Some? {
        valueSet := parsed;
        outcome := Replaced;
      } else if valueSet.Some? {
        outcome := Retained;
      } else {
        outcome := Raised;
      }
    }

    /** `filter` (named FilterEvent here): drops the fields that failed to resolve, refreshes the set
        when the deadline has passed in file mode, then signals a match when
        one of the values is in the set. */
    method FilterEvent(now: int, extracted: seq<Option<string>>, file: FileRead) returns (verdict: Verdict)
      requires Registered()
      modifies this`valueSet, this`nextRefresh, this`loads
      ensures Registered()
      ensures valuePath.None? || !old(NeedsRefresh(now)) ==>
                valueSet == old(valueSet) && nextRefresh == old(nextRefresh) && loads == old(loads)
      ensures valuePath.Some? && old(NeedsRefresh(now)) ==>
                && nextRefresh == Some(now + refreshInterval)
                && loads == old(loads) + 1
                && valueSet == (if Parse(file, separator).Some? then Parse(file, separator) else old(valueSet))
      ensures Present(extracted) == [] ==> verdict == Unmatched
      ensures Present(extracted) != [] && valueSet.None? ==> verdict == NilValueSet
      ensures valueSet.Some? ==>
                (verdict == Matched <==> exists v :: v in Present(extracted) && v in valueSet.value)
      ensures valueSet.Some? ==> verdict != NilValueSet
    {
      var values := Present(extracted);
      if valuePath.Some? {
        if NeedsRefresh(now) {
          // Under the write lock the deadline is checked again: another worker
          // may have refreshed while this one waited for the lock.
          if NeedsRefresh(now) {
            var outcome := LoadFile(file);
            nextRefresh := Some(now + refreshInterval);
          }
        }
      }
      if values == [] {
        return Unmatched;
      }
      match valueSet
      case None =>
        verdict := NilValueSet;
      case Some(active) =>
        var hit := FirstMember(values, active);
        verdict := if hit.Some? then Matched else Unmatched;
    }
  }

  /** Two events at the same instant load the file at most once between them,
      whatever the workers see (a refresh interval of zero or more). */
  method LoadsAtMostOncePerInstant(f: Filter, now: int, first: seq<Option<string>>, second: seq<Option<string>>,
                                   file1: FileRead, file2: FileRead)
    returns (v1: Verdict, v2: Verdict)
    requires f.Registered() && f.refreshInterval >= 0
    modifies f
    ensures f.Registered()
    ensures f.loads <= old(f.loads) + 1
  {
    v1 := f.FilterEvent(now, first, file1);
    v2 := f.FilterEvent(now, second, file2);
  }

  /** A static reference list: "apple" matches, "cherry" does not, and a
      field that failed to resolve is skipped. */
  method StaticScenario() {
    var f := new Filter(["apple", "banana"], None, 600, "\n");
    var err := f.Register(0, IoError);
    assert err == None;
    var v := f.FilterEvent(1, [Some("apple")], IoError);
    assert v == Matched;
    v := f.FilterEvent(2, [Some("cherry")], IoError);
    assert "cherry" !in ["apple", "banana"];
    assert v == Unmatched;
    v := f.FilterEvent(3, [None, Some("banana")], IoError);
    assert v == Matched;
  }

  /** Neither `value` nor `value_path`: the set stays unassigned, so an event
      with a resolved field makes `filter` fail, and one without does not. */
  method UnconfiguredScenario() {
    var f := new Filter([], None, 600, "\n");
    var err := f.Register(0, IoError);
    assert err == None && f.valueSet == None;
    var v := f.FilterEvent(1, [None], IoError);
    assert v == Unmatched;
    v := f.FilterEvent(2, [Some("apple")], IoError);
    assert v == NilValueSet;
  }

  /** Both `value` and `value_path`: `register` raises. An empty `value` with
      `value_path` is file mode and does not. */
  method ExclusiveScenario() {
    var f := new Filter(["apple"], Some("/etc/logstash/fruits"), 600, "\n");
    var err := f.Register(0, Contents("apple"));
    assert err == Some(MutuallyExclusive);
    var g := new Filter([], Some("/etc/logstash/fruits"), 600, "\n");
    err := g.Register(0, IoError);
    assert err == Some(InvalidFile);
  }

  /** A file of lines cut by a one-character separator, none repeated and
      the last one not empty, loads as the set of those lines. */
  lemma LoadLines(lines: seq<string>, sep: string)
    requires LiteralSeparator(sep) && |sep| == 1
    requires lines != [] && lines[|lines| - 1] != ""
    requires forall i :: 0 <= i < |lines| ==> sep[0] !in lines[i]
    requires forall i, j :: 0 <= i < j < |lines| ==> lines[i] != lines[j]
    ensures Parse(Contents(Join(lines, sep)), sep) == Some(ToSet(lines))
  {
    forall i | 0 <= i < |lines| ensures Separable(lines[i], sep) {
      SeparableSingleChar(lines[i], sep);
    }
    LoadJoined(lines, sep);
    var parsed := Parse(Contents(Join(lines, sep)), sep);
    assert parsed.value == ToSet(lines);
  }

  /** A file refreshed every second whose lines include "fox", edited to drop
      it: "fox" keeps matching until the deadline has strictly passed, stops
      matching once the edited file is loaded, and an unreadable file later
      changes nothing but the deadline. */
  method RefreshScenario(fox: string, fish: string, newline: string, before: FileRead, after: FileRead)
    requires LiteralSeparator(newline) && fox != fish
    requires Parse(before, newline).Some? && fox in Parse(before, newline).value
    requires Parse(after, newline).Some? && fox !in Parse(after, newline).value
    requires fish in Parse(after, newline).value
  {
    PresentOne(fox);
    PresentOne(fish);

    var f := new Filter([], Some("/etc/logstash/fruits"), 1, newline);
    var err := f.Register(0, before);
    assert err == None && f.nextRefresh == Some(1);
    var v := f.FilterEvent(0, [Some(fox)], after);
    assert v == Matched;
    v := f.FilterEvent(1, [Some(fox)], after);
    assert v == Matched && f.loads == 1;
    v := f.FilterEvent(2, [Some(fox)], after);
    assert v == Unmatched && f.loads == 2 && f.nextRefresh == Some(3);
    v := f.FilterEvent(4, [Some(fish)], IoError);
    assert v == Matched && f.loads == 3 && f.nextRefresh == Some(5);
  }

  /** The same with the files written out: three distinct lines cut by a
      one-character separator, then the last two of them. */
  method FileScenario(fox: string, fish: string, cat: string, newline: string)
    requires fox != fish && fox != cat && fish != cat && cat != ""
    requires LiteralSeparator(newline) && |newline| == 1
    requires newline[0] !in fox && newline[0] !in fish && newline[0] !in cat
  {
    LoadLines([fox, fish, cat], newline);
    LoadLines([fish, cat], newline);
    RefreshScenario(fox, fish, newline, Contents(Join([fox, fish, cat], newline)), Contents(Join([fish, cat], newline)));
  }
}
