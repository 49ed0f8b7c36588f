/**
 * The config loader of script.js (`loadConfig`): the text of `config.cfg`
 * is cut into lines, and every `KEY=VALUE` line is written into the global
 * `CONFIG` object, one assignment per line, in order.
 */
module Config {
  import opened Wrappers
  import opened JsStrings

  /** The `CONFIG` object: property names to string values. */
  type Store = map<string, string>

  /** What one line of the config text does to `CONFIG`. */
  datatype LineEffect =
    | Blank                               // empty once trimmed: skipped
    | Comment                             // starts with '#' once trimmed: skipped
    | Assign(key: string, value: string)  // `CONFIG[key] = value`
    | Throws                              // no '=': `value` is undefined, `value.trim()` throws

  /**
   * The body of the `forEach` callback for one line: trim it, skip it when
   * empty or a comment, else destructure `split('=')` into key and value.
   * Only the first two pieces are used, so text after a second '=' is lost;
   * a line without '=' leaves `value` undefined.
   */
  function ParseLine(line: string): LineEffect {
    var trimmed := Trim(line);
    if trimmed == [] then Blank
    else if trimmed[0] == '#' then Comment
    else
      var parts := SplitOn(trimmed, '=');
      if |parts| < 2 then Throws
      else Assign(Trim(parts[0]), Trim(parts[1]))
  }

  /**
   * Which lines are skipped, which are stored and which throw: blank and
   * comment lines are told apart after trimming, so an indented '#' still
   * starts a comment; any other line throws exactly when it has no '='.
   * A stored key and value are trimmed and hold no '='.
   */
  lemma ParseLineCases(line: string)
    ensures ParseLine(line).Blank? <==> Trim(line) == []
    ensures ParseLine(line).Comment? <==> Trim(line) != [] && Trim(line)[0] == '#'
    ensures ParseLine(line).Throws? <==> Trim(line) != [] && Trim(line)[0] != '#' && '=' !in Trim(line)
    ensures ParseLine(line).Assign? <==> Trim(line) != [] && Trim(line)[0] != '#' && '=' in Trim(line)
    ensures ParseLine(line).Assign? ==>
              var e := ParseLine(line);
              '=' !in e.key && '=' !in e.value && Unpadded(e.key) && Unpadded(e.value)
  {
    var trimmed := Trim(line);
    if trimmed != [] && trimmed[0] != '#' {
      var parts := SplitOn(trimmed, '=');
      JoinSplitOn(trimmed, '=');
      SplitOnPieces(trimmed, '=');
      if |parts| < 2 {
        assert trimmed == parts[0];
      } else {
        assert trimmed == parts[0] + ['='] + Join(parts[1..], '=');
        assert trimmed[|parts[0]|] == '=';
        TrimSubstring(parts[0]);
        TrimSubstring(parts[1]);
        TrimSpec(parts[0]);
        TrimSpec(parts[1]);
      }
    }
  }

  /**
   * An accepted line stores the trimmed text before its first '=' under the
   * trimmed text between its first and second '='; whatever follows a
   * second '=' is discarded.
   */
  lemma ParseLineAssign(line: string, key: string, value: string, rest: string)
    requires Trim(line) == key + "=" + value + rest
    requires '=' !in key && '=' !in value && (rest == [] || rest[0] == '=')
    requires Trim(line)[0] != '#'
    ensures ParseLine(line) == Assign(Trim(key), Trim(value))
  {
    SplitOnFirstTwo(key, value, rest, '=');
  }

  // ----- the forEach loop, as a specification -----

  /** What each line of the text does, in order. */
  function Effects(lines: seq<string>): (effects: seq<LineEffect>)
    ensures |effects| == |lines|
  {
    seq(|lines|, i requires 0 <= i < |lines| => ParseLine(lines[i]))
  }

  /** The outcome of the loop: it ran to the end, or threw with `CONFIG` as it was then. */
  datatype LoadOutcome = Loaded(store: Store) | Threw(store: Store)

  /** One iteration of the loop body on `CONFIG` holding `m`. */
  function Step(m: Store, e: LineEffect): (r: LoadOutcome)
    ensures r.Threw? <==> e == Throws
    ensures !e.Assign? ==> r.store == m
    ensures e.Assign? ==> e.key in r.store && r.store[e.key] == e.value
    ensures e.Assign? ==>
              forall k :: k != e.key ==> (k in r.store <==> k in m) && (k in m ==> r.store[k] == m[k])
  {
    match e
    case Assign(k, v) => Loaded(m[k := v])
    case Throws => Threw(m)
    case _ => Loaded(m)
  }

  /** The effects applied one after another, first to last, stopping at the first throw. */
  function Apply(store: Store, effects: seq<LineEffect>): LoadOutcome
    decreases |effects|
  {
    if effects == [] then Loaded(store)
    else
      match Apply(store, effects[..|effects| - 1])
      case Threw(m) => Threw(m)
      case Loaded(m) => Step(m, effects[|effects| - 1])
  }

  /** Carries on from an outcome with more effects (a throw ends the loop). */
  function Continue(o: LoadOutcome, effects: seq<LineEffect>): LoadOutcome {
    match o
    case Threw(m) => Threw(m)
    case Loaded(m) => Apply(m, effects)
  }

  predicate AssignsKey(e: LineEffect, k: string) {
    e.Assign? && e.key == k
  }

  /** Running the loop over `a + b` is running it over `a`, then over `b`. */
  lemma {:induction false} ApplyAppend(store: Store, a: seq<LineEffect>, b: seq<LineEffect>)
    ensures Apply(store, a + b) == Continue(Apply(store, a), b)
    decreases |b|
  {
    if b == [] {
      assert a + b == a;
      match Apply(store, a)
      case Threw(_) =>
      case Loaded(_) =>
    } else {
      var ab := a + b;
      assert ab[..|ab| - 1] == a + b[..|b| - 1];
      ApplyAppend(store, a, b[..|b| - 1]);
      assert ab[|ab| - 1] == b[|b| - 1];
    }
  }

  /** Blank and comment lines never change the outcome, wherever they stand. */
  lemma SkippedLineInert(store: Store, a: seq<LineEffect>, e: LineEffect, b: seq<LineEffect>)
    requires e.Blank? || e.Comment?
    ensures Apply(store, a + [e] + b) == Apply(store, a + b)
  {
    ApplyAppend(store, a + [e], b);
    ApplyAppend(store, a, b);
    assert (a + [e])[..|a|] == a;
    match Apply(store, a)
    case Threw(_) =>
    case Loaded(_) =>
  }

  /** The loop throws exactly when some line has no '='. */
  lemma {:induction false} ThrowsIff(store: Store, effects: seq<LineEffect>)
    ensures Apply(store, effects).Threw? <==> Throws in effects
    decreases |effects|
  {
    if effects != [] {
      var init := effects[..|effects| - 1];
      ThrowsIff(store, init);
      assert effects == init + [effects[|effects| - 1]];
    }
  }

  /**
   * When line `i` is the first without '=', the loop throws there and
   * `CONFIG` keeps exactly what the lines before it stored.
   */
  lemma ThrowKeepsEarlierEntries(store: Store, effects: seq<LineEffect>, i: nat)
    requires i < |effects| && effects[i] == Throws
    requires Throws !in effects[..i]
    ensures Apply(store, effects[..i]).Loaded?
    ensures Apply(store, effects) == Threw(Apply(store, effects[..i]).store)
  {
    ThrowsIff(store, effects[..i]);
    ApplyAppend(store, effects[..i + 1], effects[i + 1..]);
    assert effects[..i + 1] + effects[i + 1..] == effects;
    assert effects[..i + 1][..i] == effects[..i];
  }

  /**
   * Entries already in `CONFIG` are never removed, and a key no line assigns
   * keeps its old value, whether the loop finishes or throws.
   */
  lemma {:induction false} KeepsPriorEntries(store: Store, effects: seq<LineEffect>, k: string)
    requires k in store
    ensures k in Apply(store, effects).store
    ensures (forall i :: 0 <= i < |effects| ==> !AssignsKey(effects[i], k))
            ==> Apply(store, effects).store[k] == store[k]
    decreases |effects|
  {
    if effects != [] {
      var init := effects[..|effects| - 1];
      KeepsPriorEntries(store, init, k);
      if forall i :: 0 <= i < |effects| ==> !AssignsKey(effects[i], k) {
        assert forall i :: 0 <= i < |init| ==> !AssignsKey(init[i], k) by {
          forall i | 0 <= i < |init| ensures !AssignsKey(init[i], k) {
            assert init[i] == effects[i];
          }
        }
        assert !AssignsKey(effects[|effects| - 1], k);
      }
    }
  }

  /** Every key of the result was there before or is the key of some assigning line. */
  lemma {:induction false} KeysComeFromLines(store: Store, effects: seq<LineEffect>, k: string)
    requires k in Apply(store, effects).store
    ensures k in store || exists i :: 0 <= i < |effects| && AssignsKey(effects[i], k)
    decreases |effects|
  {
    if effects != [] && k !in store {
      var init := effects[..|effects| - 1];
      if k in Apply(store, init).store {
        KeysComeFromLines(store, init, k);
        var i :| 0 <= i < |init| && AssignsKey(init[i], k);
        assert effects[i] == init[i];
      } else {
        assert AssignsKey(effects[|effects| - 1], k);
      }
    }
  }

  /** How many lines assign a property. */
  function AssignCount(effects: seq<LineEffect>): nat
    decreases |effects|
  {
    if effects == [] then 0
    else AssignCount(effects[..|effects| - 1]) + (if effects[|effects| - 1].Assign? then 1 else 0)
  }

  /** The loop adds at most one key per assigning line. */
  lemma {:induction false} AddedKeysBound(store: Store, effects: seq<LineEffect>)
    ensures |Apply(store, effects).store| <= |store| + AssignCount(effects)
    decreases |effects|
  {
    if effects != [] {
      AddedKeysBound(store, effects[..|effects| - 1]);
    }
  }

  /**
   * Last write wins: a key keeps the value of the last line that assigns it,
   * provided the loop gets that far (no earlier line throws).
   */
  lemma LastWriteWins(store: Store, effects: seq<LineEffect>, i: nat, k: string, v: string)
    requires i < |effects| && effects[i] == Assign(k, v)
    requires Throws !in effects[..i]
    requires forall j :: i < j < |effects| ==> !AssignsKey(effects[j], k)
    ensures k in Apply(store, effects).store
    ensures Apply(store, effects).store[k] == v
  {
    var upto, after := effects[..i + 1], effects[i + 1..];
    assert upto + after == effects;
    assert upto[..i] == effects[..i];
    ThrowsIff(store, effects[..i]);
    ApplyAppend(store, upto, after);
    var m := Apply(store, upto).store;
    assert k in m && m[k] == v;
    forall j | 0 <= j < |after| ensures !AssignsKey(after[j], k) {
      assert after[j] == effects[i + 1 + j];
    }
    KeepsPriorEntries(m, after, k);
  }

  /** The loop over the first `i + 1` lines is the loop over the first `i`, then line `i`. */
  lemma ApplyPrefixStep(store: Store, effects: seq<LineEffect>, i: nat)
    requires i < |effects|
    ensures Apply(store, effects[..i + 1])
         == match Apply(store, effects[..i])
            case Threw(m) => Threw(m)
            case Loaded(m) => Step(m, effects[i])
  {
    assert effects[..i + 1][..i] == effects[..i];
  }

  /** Once the loop has thrown, the remaining lines are never looked at. */
  lemma ThrowEndsLoop(store: Store, effects: seq<LineEffect>, i: nat)
    requires i <= |effects| && Apply(store, effects[..i]).Threw?
    ensures Apply(store, effects) == Apply(store, effects[..i])
  {
    ApplyAppend(store, effects[..i], effects[i..]);
    assert effects[..i] + effects[i..] == effects;
  }

  // ----- the loop itself -----

  /**
   * `loadConfig` after the fetch: `text` is the body of `config.cfg` and
   * `store` the `CONFIG` object before the call. The result is `CONFIG`
   * afterwards, and whether the loop threw.
   */
  method LoadConfig(store: Store, text: string) returns (outcome: LoadOutcome)
    ensures outcome == Apply(store, Effects(SplitLines(text)))
  {
    var lines := SplitLines(text);
    ghost var effects := Effects(lines);
    var config := store;
    var i := 0;
    while i < |lines|
      invariant 0 <= i <= |lines|
      invariant Apply(store, effects[..i]) == Loaded(config)
    {
      var effect := ParseLine(lines[i]);
      assert effect == effects[i];
      ApplyPrefixStep(store, effects, i);
      match effect {
        case Assign(key, value) =>
          config := config[key := value];
        case Throws =>
          ThrowEndsLoop(store, effects, i + 1);
          return Threw(config);
        case _ =>
      }
      i := i + 1;
    }
    assert effects[..i] == effects;
    return Loaded(config);
  }
}
