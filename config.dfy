/**
 * The build configuration's target handling: parsing a Rust target triple,
 * falling back to a target-specification path, and printing a target back.
 */
module BuildConfig {
  import opened Wrappers

  /** Default per-hart kernel stack size, in pages. */
  function KernelDefaultStackSizePages(): (n: nat)
    ensures n == 16
  {
    16
  }

  /** Default per-hart bootloader stack size, in pages. */
  function BootloaderDefaultStackSizePages(): (n: nat)
    ensures n == 4
  {
    4
  }

  /** Verbosity of logging output, least verbose first. */
  datatype LogLevel = Error | Warn | Info | Debug | Trace

  /** The level used when the configuration names none. */
  function DefaultLogLevel(): (l: LogLevel)
    ensures l == Info
  {
    Info
  }

  /**
   * The `usize` discriminant: `Error` is 1 and every later variant is one
   * more than the one before it.
   */
  function Discriminant(l: LogLevel): (d: nat)
    ensures 1 <= d <= 5
  {
    match l
    case Error => 1
    case Warn => 2
    case Info => 3
    case Debug => 4
    case Trace => 5
  }

  /** The level a discriminant stands for, if any. */
  function FromDiscriminant(d: nat): (l: Option<LogLevel>)
    ensures l.Some? <==> 1 <= d <= 5
    ensures l.Some? ==> Discriminant(l.value) == d
  {
    match d
    case 1 => Some(Error)
    case 2 => Some(Warn)
    case 3 => Some(Info)
    case 4 => Some(Debug)
    case 5 => Some(Trace)
    case _ => None
  }

  /** The discriminants in declaration order: `Error` is 1, each later level one more. */
  lemma DiscriminantsAscend()
    ensures Discriminant(Error) == 1
    ensures Discriminant(Warn) == Discriminant(Error) + 1
    ensures Discriminant(Info) == Discriminant(Warn) + 1
    ensures Discriminant(Debug) == Discriminant(Info) + 1
    ensures Discriminant(Trace) == Discriminant(Debug) + 1
  {
  }

  lemma DiscriminantRoundTrip(l: LogLevel)
    ensures FromDiscriminant(Discriminant(l)) == Some(l)
  {
  }

  datatype TargetTriple = TargetTriple(arch: string, vendor: string, os: string, env: string)

  /** A target is a triple or the path of a target-specification file, kept as its text. */
  datatype Target = Triple(triple: TargetTriple) | Path(path: string)

  /** Why a string is not an accepted target triple. */
  datatype TripleError =
    | MissingArchitecture
    | MissingVendor
    | MissingOs
    | MissingEnvironment
    | UnsupportedArchitecture
    | UnsupportedVendor
    | UnsupportedOs
    | UnsupportedEnvironment

  /** A component that is absent, as opposed to present but unsupported. */
  predicate IsMissing(e: TripleError) {
    e.MissingArchitecture? || e.MissingVendor? || e.MissingOs? || e.MissingEnvironment?
  }

  /**
   * The context text each error carries: absent components are reported as
   * missing from the triple, present ones as unsupported.
   */
  function Message(e: TripleError): (m: string)
    ensures IsMissing(e) ==> |m| > 8 && m[..8] == "missing "
    ensures !IsMissing(e) ==> |m| > 12 && m[..12] == "unsupported "
  {
    match e
    case MissingArchitecture => "missing architecture in target triple"
    case MissingVendor => "missing vendor in target triple"
    case MissingOs => "missing OS in target triple"
    case MissingEnvironment => "missing environment in target triple"
    case UnsupportedArchitecture => "unsupported architecture"
    case UnsupportedVendor => "unsupported vendor"
    case UnsupportedOs => "unsupported OS"
    case UnsupportedEnvironment => "unsupported environment"
  }

  /** Every error has a text of its own. */
  lemma MessagesDistinct(a: TripleError, b: TripleError)
    ensures Message(a) == Message(b) <==> a == b
  {
  }

  /** The only triple the kernel builds for. */
  const Supported := TargetTriple("riscv64gc", "unknown", "none", "elf")
  /** Its text, `riscv64gc-unknown-none-elf`. */
  const SupportedText := Supported.arch + "-" + Supported.vendor + "-" + Supported.os + "-" + Supported.env

  // ---------------------------------------------------------------------------
  // Splitting at a separator, as `str::splitn` does
  // ---------------------------------------------------------------------------

  /** The position of the first `c` in `s`. */
  function IndexOf(s: string, c: char): (r: Option<nat>)
    ensures r.None? <==> c !in s
    ensures r.Some? ==> r.value < |s| && s[r.value] == c && c !in s[..r.value]
  {
    if |s| == 0 then None
    else if s[0] == c then Some(0)
    else
      match IndexOf(s[1..], c)
      case None => None
      case Some(i) => assert s[..i + 1] == [s[0]] + s[1..][..i]; Some(i + 1)
  }

  /** The inverse of splitting: the pieces glued back with `sep` between them. */
  function Join(pieces: seq<string>, sep: char): string
    requires |pieces| > 0
  {
    if |pieces| == 1 then pieces[0] else pieces[0] + [sep] + Join(pieces[1..], sep)
  }

  /** The number of times `c` occurs in `s`. */
  function Occurrences(s: string, c: char): nat {
    if |s| == 0 then 0 else (if s[0] == c then 1 else 0) + Occurrences(s[1..], c)
  }

  /** `pieces` is a cut of some string into at most `n` pieces, as `splitn(n, sep)` makes. */
  predicate IsSplitting(pieces: seq<string>, n: nat, sep: char) {
    && 1 <= |pieces| <= n
    && (forall k :: 0 <= k < |pieces| - 1 ==> sep !in pieces[k])
    && (|pieces| < n ==> sep !in pieces[|pieces| - 1])
  }

  /**
   * `s.splitn(n, sep)`: at most `n` pieces, the last of which is the whole
   * rest of the string, separators included. An empty string gives one
   * empty piece, so there is always at least one.
   */
  function SplitN(s: string, n: nat, sep: char): (pieces: seq<string>)
    requires n >= 1
    ensures 1 <= |pieces| <= n
    decreases n
  {
    if n == 1 then [s]
    else
      match IndexOf(s, sep)
      case None => [s]
      case Some(i) => [s[..i]] + SplitN(s[i + 1..], n - 1, sep)
  }

  // ---------------------------------------------------------------------------
  // Parsing and printing targets
  // ---------------------------------------------------------------------------

  /**
   * `TargetTriple::from_str`: the first four `-`-separated pieces, each of
   * which must be present, checked against the one supported triple.
   */
  function TripleFromStr(s: string): (r: Result<TargetTriple, TripleError>)
    ensures r.Ok? ==> r.value == Supported
  {
    var pieces := SplitN(s, 4, '-');
    if |pieces| < 1 then Err(MissingArchitecture)
    else if |pieces| < 2 then Err(MissingVendor)
    else if |pieces| < 3 then Err(MissingOs)
    else if |pieces| < 4 then Err(MissingEnvironment)
    else if pieces[0] != "riscv64gc" then Err(UnsupportedArchitecture)
    else if pieces[1] != "unknown" then Err(UnsupportedVendor)
    else if pieces[2] != "none" then Err(UnsupportedOs)
    else if pieces[3] != "elf" then Err(UnsupportedEnvironment)
    else Ok(TargetTriple(pieces[0], pieces[1], pieces[2], pieces[3]))
  }

  /**
   * `Target::from_str`: never fails; a string that is not the supported
   * triple is taken as a path.
   */
  function TargetFromStr(s: string): (r: Result<Target, TripleError>)
    ensures r.Ok?
    ensures r.value.Triple? <==> TripleFromStr(s).Ok?
    ensures r.value.Path? ==> r.value.path == s
  {
    match TripleFromStr(s)
    case Ok(triple) => Ok(Triple(triple))
    case Err(_) => Ok(Path(s))
  }

  /** `Target::to_string`. */
  function ToString(t: Target): (s: string)
    ensures t.Triple? ==> s == Join([t.triple.arch, t.triple.vendor, t.triple.os, t.triple.env], '-')
    ensures t.Path? ==> s == t.path
  {
    match t
    case Triple(triple) =>
      JoinFour(triple.arch, triple.vendor, triple.os, triple.env, '-');
      triple.arch + "-" + triple.vendor + "-" + triple.os + "-" + triple.env
    case Path(path) => path
  }

  lemma JoinFour(a: string, b: string, c: string, d: string, sep: char)
    ensures Join([a, b, c, d], sep) == a + [sep] + b + [sep] + c + [sep] + d
  {
    assert [c, d][1..] == [d];
    assert Join([c, d], sep) == c + [sep] + d;
    assert [b, c, d][1..] == [c, d];
    assert Join([b, c, d], sep) == b + [sep] + (c + [sep] + d);
    assert [a, b, c, d][1..] == [b, c, d];
  }
}

module BuildConfigProofs {
  import opened Wrappers
  import opened BuildConfig

  // ---------------------------------------------------------------------------
  // Splitting
  // ---------------------------------------------------------------------------

  /**
   * `SplitN` cuts at separators only: gluing its pieces back gives the input,
   * no piece but the last holds a separator, and neither does the last when
   * fewer than `n` pieces came out.
   */
  lemma {:induction false} SplitNSpec(s: string, n: nat, sep: char)
    requires n >= 1
    ensures IsSplitting(SplitN(s, n, sep), n, sep) && Join(SplitN(s, n, sep), sep) == s
    decreases n
  {
    if n > 1 && IndexOf(s, sep).Some? {
      var i := IndexOf(s, sep).value;
      var rest := SplitN(s[i + 1..], n - 1, sep);
      SplitNSpec(s[i + 1..], n - 1, sep);
      SplitStep(s, i, sep, rest, n);
    }
  }

  /** Putting the piece before the first separator in front of the rest's pieces. */
  lemma SplitStep(s: string, i: nat, sep: char, rest: seq<string>, n: nat)
    requires i < |s| && s[i] == sep && sep !in s[..i]
    requires n >= 2 && IsSplitting(rest, n - 1, sep) && Join(rest, sep) == s[i + 1..]
    ensures Join([s[..i]] + rest, sep) == s
    ensures IsSplitting([s[..i]] + rest, n, sep)
  {
    var pieces := [s[..i]] + rest;
    assert pieces[1..] == rest;
    assert s == s[..i] + [sep] + s[i + 1..];
    forall k | 0 <= k < |pieces| - 1 ensures sep !in pieces[k] {
      if k > 0 {
        assert pieces[k] == rest[k - 1];
      }
    }
    assert pieces[|pieces| - 1] == rest[|rest| - 1];
  }

  /** Two cuts that glue back to the same string are the same cut. */
  lemma {:induction false} JoinInjective(a: seq<string>, b: seq<string>, n: nat, sep: char)
    requires IsSplitting(a, n, sep) && IsSplitting(b, n, sep)
    requires Join(a, sep) == Join(b, sep)
    ensures a == b
    decreases n
  {
    if |a| == 1 && |b| == 1 {
      assert a == [a[0]] && b == [b[0]];
    } else if |a| == 1 {
      JoinHasSeparator(b, sep);
    } else if |b| == 1 {
      JoinHasSeparator(a, sep);
    } else {
      var ra, rb := a[1..], b[1..];
      CutAtFirst(a[0], Join(ra, sep), b[0], Join(rb, sep), sep);
      TailIsSplitting(a, n, sep);
      TailIsSplitting(b, n, sep);
      JoinInjective(ra, rb, n - 1, sep);
      assert a == [a[0]] + ra && b == [b[0]] + rb;
    }
  }

  /** A string cut into two or more pieces contains the separator. */
  lemma JoinHasSeparator(pieces: seq<string>, sep: char)
    requires |pieces| > 1
    ensures sep in Join(pieces, sep)
  {
    var s := Join(pieces, sep);
    assert s == pieces[0] + [sep] + Join(pieces[1..], sep);
    assert s[|pieces[0]|] == sep;
  }

  /** The text before the first separator, and what follows it, are determined by the string. */
  lemma CutAtFirst(p: string, t: string, q: string, u: string, sep: char)
    requires sep !in p && sep !in q
    requires p + [sep] + t == q + [sep] + u
    ensures p == q && t == u
  {
    var s := p + [sep] + t;
    FirstSeparator(p, sep, t);
    FirstSeparator(q, sep, u);
    assert p == s[..|p|] == q;
    assert t == s[|p| + 1..] == u;
  }

  /** The first separator of `p + [sep] + t` is the one right after `p` when `p` has none. */
  lemma FirstSeparator(p: string, sep: char, t: string)
    requires sep !in p
    ensures IndexOf(p + [sep] + t, sep) == Some(|p|)
  {
    var s := p + [sep] + t;
    assert s[..|p|] == p;
    assert s[|p|] == sep;
  }

  /** Dropping the first piece of a cut into at most `n` leaves a cut into at most `n - 1`. */
  lemma TailIsSplitting(pieces: seq<string>, n: nat, sep: char)
    requires IsSplitting(pieces, n, sep) && |pieces| > 1
    ensures IsSplitting(pieces[1..], n - 1, sep)
    ensures Join(pieces, sep) == pieces[0] + [sep] + Join(pieces[1..], sep)
    ensures sep !in pieces[0]
  {
    var rest := pieces[1..];
    forall k | 0 <= k < |rest| - 1 ensures sep !in rest[k] {
      assert rest[k] == pieces[k + 1];
    }
    assert rest[|rest| - 1] == pieces[|pieces| - 1];
  }

  /** `SplitN` is the only way to cut `s` into such pieces. */
  lemma SplitNUnique(s: string, n: nat, sep: char, pieces: seq<string>)
    requires IsSplitting(pieces, n, sep) && Join(pieces, sep) == s
    ensures SplitN(s, n, sep) == pieces
  {
    SplitNSpec(s, n, sep);
    JoinInjective(SplitN(s, n, sep), pieces, n, sep);
  }

  lemma {:induction false} OccurrencesAppend(a: string, b: string, c: char)
    ensures Occurrences(a + b, c) == Occurrences(a, c) + Occurrences(b, c)
  {
    if |a| > 0 {
      assert (a + b)[1..] == a[1..] + b;
      OccurrencesAppend(a[1..], b, c);
    } else {
      assert a + b == b;
    }
  }

  lemma {:induction false} OccurrencesAbsent(s: string, c: char)
    ensures Occurrences(s, c) == 0 <==> c !in s
  {
    if |s| > 0 {
      OccurrencesAbsent(s[1..], c);
      assert s == [s[0]] + s[1..];
    }
  }

  /** Gluing separator-free pieces adds one separator per seam. */
  lemma {:induction false} OccurrencesJoin(pieces: seq<string>, sep: char)
    requires |pieces| > 0
    requires forall k :: 0 <= k < |pieces| - 1 ==> sep !in pieces[k]
    ensures Occurrences(Join(pieces, sep), sep) == |pieces| - 1 + Occurrences(pieces[|pieces| - 1], sep)
  {
    if |pieces| > 1 {
      var rest := pieces[1..];
      forall k | 0 <= k < |rest| - 1 ensures sep !in rest[k] {
        assert rest[k] == pieces[k + 1];
      }
      OccurrencesJoin(rest, sep);
      OccurrencesAppend(pieces[0] + [sep], Join(rest, sep), sep);
      OccurrencesAppend(pieces[0], [sep], sep);
      OccurrencesAbsent(pieces[0], sep);
      assert Occurrences([sep], sep) == 1 by {
        assert [sep][1..] == [];
      }
    }
  }

  /** `splitn(n, ..)` yields one piece more than there are separators, but never more than `n`. */
  lemma SplitNLength(s: string, n: nat, sep: char)
    requires n >= 1
    ensures |SplitN(s, n, sep)| == if Occurrences(s, sep) + 1 < n then Occurrences(s, sep) + 1 else n
  {
    var pieces := SplitN(s, n, sep);
    SplitNSpec(s, n, sep);
    OccurrencesJoin(pieces, sep);
    OccurrencesAbsent(pieces[|pieces| - 1], sep);
  }

  // ---------------------------------------------------------------------------
  // Target triples
  // ---------------------------------------------------------------------------

  lemma SupportedSplits()
    ensures SplitN(SupportedText, 4, '-') == ["riscv64gc", "unknown", "none", "elf"]
  {
    JoinFour("riscv64gc", "unknown", "none", "elf", '-');
    SplitNUnique(SupportedText, 4, '-', ["riscv64gc", "unknown", "none", "elf"]);
  }

  /** Exactly one string parses as a triple, and it parses to the supported fields. */
  lemma TripleFromStrOkIff(s: string)
    ensures TripleFromStr(s).Ok? <==> s == SupportedText
    ensures s == SupportedText ==> TripleFromStr(s) == Ok(Supported)
  {
    if TripleFromStr(s).Ok? {
      OnlySupportedParses(s);
    }
    if s == SupportedText {
      SupportedSplits();
    }
  }

  lemma OnlySupportedParses(s: string)
    requires TripleFromStr(s).Ok?
    ensures s == SupportedText
  {
    AcceptedPieces(s);
    SplitNSpec(s, 4, '-');
    JoinFour(Supported.arch, Supported.vendor, Supported.os, Supported.env, '-');
  }

  /** An accepted string splits into exactly the four supported components. */
  lemma AcceptedPieces(s: string)
    requires TripleFromStr(s).Ok?
    ensures SplitN(s, 4, '-') == [Supported.arch, Supported.vendor, Supported.os, Supported.env]
  {
    var p := SplitN(s, 4, '-');
    assert |p| == 4;
    assert p[0] == Supported.arch && p[1] == Supported.vendor;
    assert p[2] == Supported.os && p[3] == Supported.env;
  }

  /**
   * With fewer than three separators a piece is missing, and the error names
   * the first one absent; the architecture is never absent, because an
   * empty string still splits into one (empty) piece.
   */
  lemma MissingComponent(s: string)
    ensures TripleFromStr(s) != Err(MissingArchitecture)
    ensures Occurrences(s, '-') == 0 <==> TripleFromStr(s) == Err(MissingVendor)
    ensures Occurrences(s, '-') == 1 <==> TripleFromStr(s) == Err(MissingOs)
    ensures Occurrences(s, '-') == 2 <==> TripleFromStr(s) == Err(MissingEnvironment)
  {
    SplitNLength(s, 4, '-');
  }

  /**
   * With three or more separators all four pieces are present, and the
   * environment is everything after the third separator.
   */
  lemma FourPieces(s: string)
    requires Occurrences(s, '-') >= 3
    ensures var p := SplitN(s, 4, '-');
      && |p| == 4
      && s == p[0] + "-" + p[1] + "-" + p[2] + "-" + p[3]
      && '-' !in p[0] && '-' !in p[1] && '-' !in p[2]
  {
    SplitNLength(s, 4, '-');
    SplitNSpec(s, 4, '-');
    var p := SplitN(s, 4, '-');
    assert p == [p[0], p[1], p[2], p[3]];
    JoinFour(p[0], p[1], p[2], p[3], '-');
    assert s == p[0] + ['-'] + p[1] + ['-'] + p[2] + ['-'] + p[3];
  }

  /**
   * Once all four pieces are present, the first unsupported one, in the
   * order architecture, vendor, OS, environment, decides the error.
   */
  lemma UnsupportedComponent(s: string)
    requires Occurrences(s, '-') >= 3
    ensures var p := SplitN(s, 4, '-');
      && |p| == 4
      && TripleFromStr(s) ==
           if p[0] != "riscv64gc" then Err(UnsupportedArchitecture)
           else if p[1] != "unknown" then Err(UnsupportedVendor)
           else if p[2] != "none" then Err(UnsupportedOs)
           else if p[3] != "elf" then Err(UnsupportedEnvironment)
           else Ok(Supported)
  {
    SplitNLength(s, 4, '-');
  }

  /**
   * A fifth piece is not split off: in `riscv64gc-unknown-none-elf-x` it stays
   * part of the environment `elf-x`, which is then unsupported.
   */
  lemma TrailingPieceInEnvironment()
    ensures SplitN(SupportedText + "-x", 4, '-') == ["riscv64gc", "unknown", "none", "elf-x"]
    ensures TripleFromStr(SupportedText + "-x") == Err(UnsupportedEnvironment)
  {
    var pieces := ["riscv64gc", "unknown", "none", "elf-x"];
    JoinFour("riscv64gc", "unknown", "none", "elf-x", '-');
    assert Join(pieces, '-') == SupportedText + "-x";
    SplitNUnique(SupportedText + "-x", 4, '-', pieces);
  }

  // ---------------------------------------------------------------------------
  // Targets
  // ---------------------------------------------------------------------------

  /** `Target::from_str` picks the triple exactly for the supported text and keeps every other string as a path. */
  lemma TargetFromStrCases(s: string)
    ensures s == SupportedText ==> TargetFromStr(s) == Ok(Triple(Supported))
    ensures s != SupportedText ==> TargetFromStr(s) == Ok(Path(s))
  {
    TripleFromStrOkIff(s);
  }

  /** Printing a parsed target gives back the string it was parsed from. */
  lemma RoundTrip(s: string)
    ensures ToString(TargetFromStr(s).value) == s
  {
    TripleFromStrOkIff(s);
  }

  /**
   * Parsing a printed target gives it back exactly when it is the supported
   * triple or a path whose text is not that triple's.
   */
  lemma ReparseIff(t: Target)
    ensures TargetFromStr(ToString(t)) == Ok(t) <==>
              (t.Triple? ==> t.triple == Supported) && (t.Path? ==> t.path != SupportedText)
  {
    TargetFromStrCases(ToString(t));
    if t.Triple? && t.triple == Supported {
      assert ToString(t) == SupportedText;
    }
  }

  /** The one path that does not survive a print and parse: it comes back as the triple. */
  lemma PathSpelledAsTriple()
    ensures TargetFromStr(ToString(Path(SupportedText))) == Ok(Triple(Supported))
    ensures Path(SupportedText) != Triple(Supported)
  {
    TargetFromStrCases(SupportedText);
  }
}
