# logstash-filter-contains, modelled in Dafny

The `contains` filter for Logstash (`lib/logstash/filters/contains.rb`) tags an
event when one of the values its `field` templates resolve to belongs to a
reference set of strings. The set is either the static `value` list, or the
file at `value_path` split on `separator`. That file is re-read on the first
event after `refresh_interval` seconds have passed. A failed re-read keeps
the previous set. A failed first read is a configuration error.

The model has three modules:

- `Wrappers` (`wrappers.dfy`): `Option`, which stands for Ruby's `nil`.
- `RubySplit` (`ruby_split.dfy`): Ruby's `String#split` for a literal
  separator, written as `Pieces` followed by `DropTrailingEmpty`. Its inverse
  `Join` comes with the lemmas that relate the two: the pieces avoid the
  separator, a join gives back the input less its trailing separators, and a
  split of a join gives back the pieces.
- `Contains` (`contains.dfy`): the plugin.
  - A class `Filter` holds the configuration as constants and the two
    instance variables `@value_set` and `@next_refresh` as `Option` fields.
    A ghost counter `loads` counts load attempts, so that "no second load"
    can be stated.
  - `Register`, `LoadFile` and `FilterEvent` (Ruby's `filter`) are methods that update those fields.
  - `NeedsRefresh` is the strict deadline test.
  - Pure parts, each proved on its own: `Parse` (the file half of
    `load_file`), `ToSet` (`to_set`), `Present` (`compact!`) and
    `FirstMember` (the early-return `each` scan).
  - Client methods replay example configurations: `StaticScenario`,
    `UnconfiguredScenario`, `ExclusiveScenario`, `RefreshScenario` and
    `FileScenario`.

The clock and the file are parameters. `now` is an integer number of seconds,
and the file is a `FileRead`: `Contents(text)` or `IoError`. The host's
template interpolation is also a parameter: one `Option<string>` per `field`
entry, with `None` where `event.sprintf` raised `ArgumentError`.
`filter_matched` becomes the returned `Verdict`.

Three behaviours of the code are modelled as written:

- `load_file`, when the text splits into no pieces, assigns `set`, a name that
  is defined nowhere. Ruby raises `NameError` there, and the bare `rescue`
  catches it. So an empty split is a load failure, like an unreadable file:
  `Parse` returns `None`.
- With neither `value` nor `value_path`, `@value_set` is never assigned. An
  event with at least one resolved field then sends `member?` to `nil`, so
  `FilterEvent` returns `NilValueSet`. An event with no resolved field is
  `Unmatched`. One might expect this configuration never to match; the code
  instead sends `member?` to nil, and the model follows the code.
- The mutual-exclusion test is `@value_path && !@value.empty?`. An
  explicitly empty `value` together with `value_path` is file mode, not an
  error.

## Model

| member | source | states |
|---|---|---|
| `RubySplit.Pieces` | lib/logstash/filters/contains.rb:104 | the cut of the file text at each left-to-right match of the separator always has a first piece, and that piece is a prefix of the text |
| `RubySplit.DropTrailingEmpty` | lib/logstash/filters/contains.rb:104 | Ruby's dropping of trailing empty fields: the result is a prefix of the pieces, it does not end in an empty piece, and every piece it dropped is empty |
| `RubySplit.Split` | lib/logstash/filters/contains.rb:104 | `file.read.split(@separator)` never ends in an empty piece (so `""` splits to no pieces) |
| `RubySplit.PiecesAvoidSeparator` | lib/logstash/filters/contains.rb:104 | no piece of the cut contains the separator |
| `RubySplit.SplitAvoidsSeparator` | lib/logstash/filters/contains.rb:104 | no element of the split contains the separator, so no set member loaded from the file does either |
| `RubySplit.JoinPieces` | lib/logstash/filters/contains.rb:104 | joining all the pieces, trailing empty ones included, with the separator gives back the file text |
| `RubySplit.JoinDropTrailing` | lib/logstash/filters/contains.rb:104 | dropping the trailing empty pieces removes exactly some number of separators from the end of the join |
| `RubySplit.SplitJoin` | lib/logstash/filters/contains.rb:104 | the text equals the join of its split pieces followed by some number of separators: only trailing separators are lost |
| `RubySplit.PiecesOfRepeat` | lib/logstash/filters/contains.rb:104 | a text made only of separators cuts into empty pieces only |
| `RubySplit.SplitEmpty` | lib/logstash/filters/contains.rb:104-109 | the split is empty (the branch that fails at line 108) exactly when the text is some number of separators, the empty text included |
| `RubySplit.PiecesOfSeparated` | lib/logstash/filters/contains.rb:104 | a piece in which no match of the separator starts comes back first when it is followed by the separator and any rest |
| `RubySplit.PiecesOfSeparable` | lib/logstash/filters/contains.rb:104 | such a piece on its own cuts into itself |
| `RubySplit.PiecesOfJoin` | lib/logstash/filters/contains.rb:104 | cutting the join of such pieces gives back all of them |
| `RubySplit.SplitOfJoin` | lib/logstash/filters/contains.rb:104 | round trip: splitting the join of such pieces, the last one non-empty, gives back exactly the pieces |
| `RubySplit.SeparableSingleChar` | lib/logstash/filters/contains.rb:53 | with a one-character separator such as the default newline, a piece qualifies for the round trip exactly when it lacks that character |
| `Contains.ToSet` | lib/logstash/filters/contains.rb:71 | `to_set` holds exactly the listed values, and has no more elements than the list: duplicates collapse and order is forgotten |
| `Contains.ToSetOfDistinct` | lib/logstash/filters/contains.rb:106 | N distinct values give a set of exactly N elements |
| `Contains.Parse` | lib/logstash/filters/contains.rb:103-110 | the file gives a new set exactly when it was read and its split is non-empty, and that set holds exactly the split pieces |
| `Contains.LoadJoined` | lib/logstash/filters/contains.rb:103-106 | a file written as distinct separable lines, the last one non-empty, loads as a set with exactly those lines as members and of exactly that size |
| `Contains.LoadLines` | lib/logstash/filters/contains.rb:103-106 | with a one-character separator, a file of distinct lines free of that character loads as exactly the set of its lines |
| `Contains.Present` | lib/logstash/filters/contains.rb:126-134 | `compact!` keeps exactly the values whose template resolved and is no longer than the field list |
| `Contains.PresentAppend` | lib/logstash/filters/contains.rb:126-134 | compaction keeps the order of `field`: it distributes over concatenation |
| `Contains.FirstMember` | lib/logstash/filters/contains.rb:147-153 | the scan stops at the first value that is in the set, with no member before it, and finds none exactly when no value is a member |
| `Contains.Filter.constructor` | lib/logstash/filters/contains.rb:21-53 | the configured plugin before `register`: both instance variables unassigned |
| `Contains.Filter.NeedsRefresh` | lib/logstash/filters/contains.rb:98-100 | `needs_refresh?`: the deadline has strictly passed (`@next_refresh < now`) |
| `Contains.Filter.Register` | lib/logstash/filters/contains.rb:56-78 | raises the mutual-exclusion error exactly when `value_path` is set and `value` is non-empty, and then changes nothing; in static mode installs `value.to_set` (nothing when `value` is empty), sets no deadline and loads nothing; in file mode sets the deadline to now + interval, loads once, raises `InvalidFile` exactly when that load fails (the set then stays unassigned), and otherwise installs the parsed set |
| `Contains.Filter.LoadFile` | lib/logstash/filters/contains.rb:102-122 | a successful load replaces the set wholesale with the pieces of the file (nothing of the old set survives unless it is in the file); a failed load leaves the set unchanged and is `Retained` when a set existed, `Raised` when none did; the deadline is not touched |
| `Contains.Filter.FilterEvent` | lib/logstash/filters/contains.rb:125-154 | keeps the registered state; in static mode, or before the deadline has strictly passed, changes nothing; once it has passed, loads once and moves the deadline to now + interval whether or not the load succeeded, keeping the old set on failure; signals a match exactly when some resolved value is in the set, fails with `NilValueSet` when there is no set and some value resolved, and otherwise does not match |
| `Contains.LoadsAtMostOncePerInstant` | lib/logstash/filters/contains.rb:136-145 | with a non-negative interval, two events at the same instant load the file at most once between them |

## Left out

- The `ReentrantReadWriteLock` and `lock_for_write`/`lock_for_read` (lines 6, 57-59, 80-96) are left out: the write-locked blocks are plain sequential calls. `lock_for_read` is never called by `filter`. Concurrent workers, and the race that the second deadline test guards against, are not modelled. The second test is kept as written.
- `File.open(...).read` is a `FileRead` parameter. Encodings and partial reads are not modelled.
- `Time.now` is one integer `now` per call. The source reads the clock separately at lines 137, 139 and 141, so its new deadline counts from the moment after the load.
- `refresh_interval` is whole seconds (an `int`). The plugin accepts any number, floats included.
- `event.sprintf` is left out: its outcome per field is an input.
- The `filter_matched` side effects (tags, fields) are left out: the method returns a `Verdict`.
- Logging, `I18n.t` message texts and the `config` declarations (lines 10-53) are left out. This includes the `:path` validation Logstash applies to `value_path` before `register`.
- `RubySplit.Split` covers only non-empty separators other than `" "`. Ruby gives `" "` (split on runs of whitespace) and `""` (split into characters) meanings of their own. The constructor of `Filter` requires such a separator.
- `RubySplit.SplitOfJoin` states the round trip only for pieces in which no match of the separator starts. Without that condition Ruby's left-to-right matching can cut differently: `"aaaa".split("aa")` is `[]`.
- `Contains.Filter.Register` requires both instance variables to be unassigned, because Logstash calls `register` once, on a fresh instance.
- `Contains.Filter.FilterEvent` requires the state a successful `register` leaves, because Logstash runs no events through a plugin whose `register` raised.
