/**
 * The runtime wrapper for distributed direct solvers: a solver type read from
 * the parameters by name, a handle to the back-end built for that type, and
 * every later call and the release dispatched on the stored type.
 *
 * Which back-ends exist is fixed when the library is compiled (Eigen and
 * PaStiX are optional), and so is what a missing parameter does. The build
 * is a parameter here, so every statement below holds for every build.
 */
module DirectSolverRuntime {
  import opened Wrappers

  /**
   * The choices fixed at compile time: the optional dependencies compiled in,
   * and whether AMGCL_PARAM_MISSING, a macro the user may define, raises an
   * error (`missingRaises`) or lets the constructor go on.
   */
  datatype BuildConfig = BuildConfig(haveEigen: bool, havePastix: bool, missingRaises: bool)

  /** The enumerators the source can declare, in declaration order. */
  datatype SolverType = SkylineLu | EigenSplu | DPastix | SPastix

  predicate Compiled(cfg: BuildConfig, t: SolverType) {
    match t
    case SkylineLu => true
    case EigenSplu => cfg.haveEigen
    case DPastix => cfg.havePastix
    case SPastix => cfg.havePastix
  }

  function Name(t: SolverType): string {
    match t
    case SkylineLu => "skyline_lu"
    case EigenSplu => "eigen_splu"
    case DPastix => "dpastix"
    case SPastix => "spastix"
  }

  /** The enumerators of the enum in this build, in declaration order. */
  function Enumerators(cfg: BuildConfig): (ts: seq<SolverType>)
    ensures |ts| > 0 && ts[0] == SkylineLu
    ensures forall t :: t in ts <==> Compiled(cfg, t)
    ensures forall i, j :: 0 <= i < j < |ts| ==> ts[i] != ts[j]
  {
    [SkylineLu] + (if cfg.haveEigen then [EigenSplu] else []) + (if cfg.havePastix then [DPastix, SPastix] else [])
  }

  /**
   * The integer value of an enumerator: enumerators without initialisers
   * count up from zero, so the value of an enumerator depends on which
   * enumerators before it are compiled in.
   */
  function Code(cfg: BuildConfig, t: SolverType): (c: nat)
    requires Compiled(cfg, t)
    ensures c < |Enumerators(cfg)| && Enumerators(cfg)[c] == t
  {
    match t
    case SkylineLu => 0
    case EigenSplu => 1
    case DPastix => if cfg.haveEigen then 2 else 1
    case SPastix => if cfg.haveEigen then 3 else 2
  }

  /**
   * The case label a value of the enum type matches in a switch over the
   * compiled enumerators; None is the default label. A value of the enum type
   * can hold any integer, not only an enumerator.
   */
  function CaseOf(cfg: BuildConfig, s: int): (r: Option<SolverType>)
    ensures r.Some? <==> 0 <= s < |Enumerators(cfg)|
    ensures r.Some? ==> Compiled(cfg, r.value) && Code(cfg, r.value) == s
  {
    var ts := Enumerators(cfg);
    if 0 <= s < |ts| then Some(ts[s]) else None
  }

  /** operator<<: the enumerator's name, "???" for any other value. */
  function Print(cfg: BuildConfig, s: int): (out: string)
    ensures CaseOf(cfg, s).Some? ==> out == Name(CaseOf(cfg, s).value)
    ensures CaseOf(cfg, s).None? ==> out == "???"
  {
    match CaseOf(cfg, s)
    case Some(t) => Name(t)
    case None => "???"
  }

  /** Printing tells the enumerators apart, and nothing prints as an enumerator but itself. */
  lemma PrintInjective(cfg: BuildConfig, a: int, b: int)
    requires CaseOf(cfg, a).Some? && Print(cfg, a) == Print(cfg, b)
    ensures a == b
  {
  }

  // ---------------------------------------------------------------------------
  // Reading a word from a stream (istream >> std::string)
  // ---------------------------------------------------------------------------

  /** The characters the classic locale classifies as white space. */
  predicate IsSpace(ch: char) {
    ch == ' ' || 9 <= ch as int <= 13
  }

  predicate NoSpace(w: string) {
    forall i :: 0 <= i < |w| ==> !IsSpace(w[i])
  }

  /** Extraction first skips leading white space. */
  function SkipSpace(s: string): (r: string)
    ensures |r| <= |s| && r == s[|s| - |r|..]
    ensures forall i :: 0 <= i < |s| - |r| ==> IsSpace(s[i])
    ensures r == [] || !IsSpace(r[0])
  {
    if s != [] && IsSpace(s[0]) then SkipSpace(s[1..]) else s
  }

  /** Then it takes characters up to the next white space or the end. */
  function TakeWord(s: string): (w: string)
    ensures |w| <= |s| && w == s[..|w|] && NoSpace(w)
    ensures |w| < |s| ==> IsSpace(s[|w|])
  {
    if s == [] || IsSpace(s[0]) then [] else [s[0]] + TakeWord(s[1..])
  }

  /** The word `in >> val` stores; empty when the input holds only white space. */
  function FirstWord(input: string): string {
    TakeWord(SkipSpace(input))
  }

  lemma {:induction false} TakeWordWhole(w: string)
    requires NoSpace(w)
    ensures TakeWord(w) == w
  {
    if w != [] {
      assert NoSpace(w[1..]) by {
        forall i | 0 <= i < |w| - 1 ensures !IsSpace(w[1..][i]) {
          assert w[1..][i] == w[i + 1];
        }
      }
      TakeWordWhole(w[1..]);
    }
  }

  /** A word is read back whole, whatever white space surrounds it. */
  lemma {:induction false} FirstWordOf(lead: string, w: string, trail: string)
    requires forall i :: 0 <= i < |lead| ==> IsSpace(lead[i])
    requires w != [] && NoSpace(w)
    requires trail == [] || IsSpace(trail[0])
    ensures FirstWord(lead + w + trail) == w
  {
    if lead != [] {
      assert (lead + w + trail)[1..] == lead[1..] + w + trail;
      FirstWordOf(lead[1..], w, trail);
    } else {
      assert lead + w + trail == w + trail;
      TakeWordPrefix(w, trail);
    }
  }

  lemma {:induction false} TakeWordPrefix(w: string, trail: string)
    requires NoSpace(w)
    requires trail == [] || IsSpace(trail[0])
    ensures TakeWord(w + trail) == w
  {
    if w != [] {
      assert (w + trail)[1..] == w[1..] + trail;
      assert NoSpace(w[1..]) by {
        forall i | 0 <= i < |w| - 1 ensures !IsSpace(w[1..][i]) {
          assert w[1..][i] == w[i + 1];
        }
      }
      TakeWordPrefix(w[1..], trail);
    }
  }

  /** Leading white space is skipped up to the first other character. */
  lemma {:induction false} SkipLead(lead: string, rest: string)
    requires forall i :: 0 <= i < |lead| ==> IsSpace(lead[i])
    requires rest == [] || !IsSpace(rest[0])
    ensures SkipSpace(lead + rest) == rest
  {
    if lead != [] {
      assert (lead + rest)[1..] == lead[1..] + rest;
      SkipLead(lead[1..], rest);
    } else {
      assert lead + rest == rest;
    }
  }

  /** What is left in the stream after the word has been read. */
  function AfterWord(input: string): (rest: string)
    ensures |rest| <= |input| && rest == input[|input| - |rest|..]
    ensures rest == [] || IsSpace(rest[0])
  {
    var s := SkipSpace(input);
    s[|TakeWord(s)|..]
  }

  /** A word with white space around it leaves exactly the trailing part. */
  lemma AfterWordOf(lead: string, w: string, trail: string)
    requires forall i :: 0 <= i < |lead| ==> IsSpace(lead[i])
    requires w != [] && NoSpace(w)
    requires trail == [] || IsSpace(trail[0])
    ensures AfterWord(lead + w + trail) == trail
  {
    assert lead + w + trail == lead + (w + trail);
    SkipLead(lead, w + trail);
    TakeWordPrefix(w, trail);
    assert (w + trail)[|w|..] == trail;
  }

  /** The tree's conversion of a value succeeds only if nothing but white space follows the word. */
  predicate ReadWhole(input: string) {
    var rest := AfterWord(input);
    forall i :: 0 <= i < |rest| ==> IsSpace(rest[i])
  }

  // ---------------------------------------------------------------------------
  // Parsing a solver type (operator>>)
  // ---------------------------------------------------------------------------

  /**
   * The errors the solver's constructor and call can raise. BackendError is
   * whatever building a back-end throws (std::bad_alloc, or the back-end
   * constructor's own error), which the solver passes on unchanged.
   */
  datatype RuntimeError =
    | InvalidArgument(message: string)
    | MissingParameter(name: string)
    | BackendError(what: string)

  const InvalidValuePrefix: string := "Invalid direct solver value. Valid choices are: "

  /** The message of an unknown name: only the enumerators of this build are listed. */
  function InvalidValueMessage(cfg: BuildConfig): string {
    InvalidValuePrefix
    + Name(SkylineLu)
    + (if cfg.haveEigen then ", " + Name(EigenSplu) else "")
    + (if cfg.havePastix then ", " + Name(DPastix) + ", " + Name(SPastix) else "")
    + "."
  }

  function Names(ts: seq<SolverType>): (ns: seq<string>)
    ensures |ns| == |ts| && forall i :: 0 <= i < |ts| ==> ns[i] == Name(ts[i])
  {
    if ts == [] then [] else [Name(ts[0])] + Names(ts[1..])
  }

  function Join(ws: seq<string>, sep: string): string {
    if ws == [] then "" else if |ws| == 1 then ws[0] else ws[0] + sep + Join(ws[1..], sep)
  }

  lemma JoinCons(w: string, ws: seq<string>, sep: string)
    requires ws != []
    ensures Join([w] + ws, sep) == w + sep + Join(ws, sep)
  {
    assert ([w] + ws)[1..] == ws;
  }

  lemma ListShape(pre: string, sk: string, ei: string, dp: string, sp: string, e: bool, p: bool)
    ensures pre + sk + (if e then ", " + ei else "") + (if p then ", " + dp + ", " + sp else "") + "."
         == pre + Join([sk] + (if e then [ei] else []) + (if p then [dp, sp] else []), ", ") + "."
  {
    JoinCons(dp, [sp], ", ");
    assert Join([dp, sp], ", ") == dp + ", " + sp;
    if e && p {
      assert [sk] + [ei] + [dp, sp] == [sk] + ([ei] + [dp, sp]);
      JoinCons(ei, [dp, sp], ", ");
      JoinCons(sk, [ei] + [dp, sp], ", ");
    } else if e {
      assert [sk] + [ei] + [] == [sk] + [ei];
      JoinCons(sk, [ei], ", ");
    } else if p {
      assert [sk] + [] + [dp, sp] == [sk] + [dp, sp];
      JoinCons(sk, [dp, sp], ", ");
    } else {
      assert [sk] + [] + [] == [sk];
    }
  }

  /** The message names exactly the compiled enumerators, comma separated, in declaration order. */
  lemma InvalidValueMessageLists(cfg: BuildConfig)
    ensures InvalidValueMessage(cfg) == InvalidValuePrefix + Join(Names(Enumerators(cfg)), ", ") + "."
  {
    var sk, ei, dp, sp := Name(SkylineLu), Name(EigenSplu), Name(DPastix), Name(SPastix);
    var e, p := cfg.haveEigen, cfg.havePastix;
    assert Names(Enumerators(cfg)) == [sk] + (if e then [ei] else []) + (if p then [dp, sp] else []);
    ListShape(InvalidValuePrefix, sk, ei, dp, sp, e, p);
  }

  /** The names tell the enumerators apart (by their first two characters). */
  lemma NameInjective(a: SolverType, b: SolverType)
    requires Name(a) == Name(b)
    ensures a == b
  {
    assert Name(a)[0] == Name(b)[0] && Name(a)[1] == Name(b)[1];
  }

  /** The if-chain of operator>>: the word compared with each compiled name in turn. */
  function Lookup(cfg: BuildConfig, val: string): (r: Option<SolverType>)
    ensures r.Some? ==> Compiled(cfg, r.value) && Name(r.value) == val
    ensures r.None? <==> forall t :: Compiled(cfg, t) ==> Name(t) != val
  {
    if val == "skyline_lu" then Some(SkylineLu)
    else if cfg.haveEigen && val == "eigen_splu" then Some(EigenSplu)
    else if cfg.havePastix && val == "dpastix" then Some(DPastix)
    else if cfg.havePastix && val == "spastix" then Some(SPastix)
    else None
  }

  /**
   * operator>>: the word read is looked up among the compiled names; no
   * match, the empty word included, is an invalid argument.
   */
  function Parse(cfg: BuildConfig, input: string): (r: Result<int, RuntimeError>)
    ensures r.Success? ==> CaseOf(cfg, r.value).Some? && Name(CaseOf(cfg, r.value).value) == FirstWord(input)
    ensures r.Failure? ==> r.error == InvalidArgument(InvalidValueMessage(cfg))
    ensures r.Failure? <==> forall t :: Compiled(cfg, t) ==> Name(t) != FirstWord(input)
  {
    match Lookup(cfg, FirstWord(input))
    case Some(t) => Success(Code(cfg, t))
    case None => Failure(InvalidArgument(InvalidValueMessage(cfg)))
  }

  /** Reading the name of a compiled enumerator gives that enumerator. */
  lemma ParseName(cfg: BuildConfig, t: SolverType, input: string)
    requires Compiled(cfg, t) && FirstWord(input) == Name(t)
    ensures Parse(cfg, input) == Success(Code(cfg, t))
  {
    var r := Lookup(cfg, FirstWord(input));
    assert r.Some?;
    NameInjective(r.value, t);
  }

  /** Printing an enumerator and reading it back gives the enumerator. */
  lemma PrintParse(cfg: BuildConfig, s: int)
    requires CaseOf(cfg, s).Some?
    ensures Parse(cfg, Print(cfg, s)) == Success(s)
  {
    var t := CaseOf(cfg, s).value;
    FirstWordName(t);
    ParseName(cfg, t, Print(cfg, s));
  }

  /** The names hold no white space, so each is read as one word. */
  lemma FirstWordName(t: SolverType)
    ensures FirstWord(Name(t)) == Name(t)
  {
    assert NoSpace(Name(t));
    TakeWordWhole(Name(t));
    assert SkipSpace(Name(t)) == Name(t);
  }

  /** Reading a value and printing it gives back the word that was read. */
  lemma ParsePrint(cfg: BuildConfig, input: string)
    requires Parse(cfg, input).Success?
    ensures Print(cfg, Parse(cfg, input).value) == FirstWord(input)
  {
  }

  /** A name that is not compiled in, "eigen_splu" without Eigen say, is rejected. */
  lemma ParseRejectsAbsent(cfg: BuildConfig, t: SolverType, input: string)
    requires !Compiled(cfg, t) && FirstWord(input) == Name(t)
    ensures Parse(cfg, input) == Failure(InvalidArgument(InvalidValueMessage(cfg)))
  {
  }

  // ---------------------------------------------------------------------------
  // The solver
  // ---------------------------------------------------------------------------

  /** The parameter tree, flattened to its top-level keys and their values. */
  type Params = map<string, string>

  const TypeKey: string := "type"
  const Unsupported: string := "Unsupported direct solver type"

  /**
   * prm.get("type", skyline_lu). The tree converts the value under "type"
   * with operator>>, whose invalid-argument error propagates. The conversion
   * fails, and the default is returned, when anything but white space follows
   * the word; the default is also returned when the key is absent.
   */
  function ReadType(cfg: BuildConfig, prm: Params): (r: Result<int, RuntimeError>)
    ensures r.Success? ==> CaseOf(cfg, r.value).Some?
    ensures TypeKey !in prm ==> r == Success(Code(cfg, SkylineLu))
    ensures TypeKey in prm ==> (r.Failure? <==> Parse(cfg, prm[TypeKey]).Failure?)
    ensures r.Failure? ==> r.error == InvalidArgument(InvalidValueMessage(cfg))
    ensures TypeKey in prm && ReadWhole(prm[TypeKey]) ==> r == Parse(cfg, prm[TypeKey])
    ensures TypeKey in prm && !ReadWhole(prm[TypeKey]) && r.Success? ==> r == Success(Code(cfg, SkylineLu))
  {
    if TypeKey !in prm then Success(Code(cfg, SkylineLu))
    else
      var s :- Parse(cfg, prm[TypeKey]);
      if ReadWhole(prm[TypeKey]) then Success(s) else Success(Code(cfg, SkylineLu))
  }

  /** A compiled name with only white space around it selects that enumerator. */
  lemma ReadTypeName(cfg: BuildConfig, prm: Params, t: SolverType, lead: string, trail: string)
    requires Compiled(cfg, t) && TypeKey in prm && prm[TypeKey] == lead + Name(t) + trail
    requires forall i :: 0 <= i < |lead| ==> IsSpace(lead[i])
    requires forall i :: 0 <= i < |trail| ==> IsSpace(trail[i])
    ensures ReadType(cfg, prm) == Success(Code(cfg, t))
  {
    FirstWordName(t);
    FirstWordOf(lead, Name(t), trail);
    AfterWordOf(lead, Name(t), trail);
    ParseName(cfg, t, prm[TypeKey]);
  }

  /**
   * A compiled name followed by more text ("eigen_splu x", say) is not
   * converted, so the default skyline_lu is used.
   */
  lemma ReadTypeTrailingText(cfg: BuildConfig, prm: Params, t: SolverType, lead: string, trail: string, k: nat)
    requires Compiled(cfg, t) && TypeKey in prm && prm[TypeKey] == lead + Name(t) + trail
    requires forall i :: 0 <= i < |lead| ==> IsSpace(lead[i])
    requires trail != [] && IsSpace(trail[0]) && k < |trail| && !IsSpace(trail[k])
    ensures ReadType(cfg, prm) == Success(Code(cfg, SkylineLu))
  {
    FirstWordName(t);
    FirstWordOf(lead, Name(t), trail);
    AfterWordOf(lead, Name(t), trail);
    ParseName(cfg, t, prm[TypeKey]);
  }

  datatype Setup = Setup(tag: int, forwarded: Params)

  /**
   * The constructor's reading of its parameters: the type is read (an
   * invalid name fails here), then "type" is erased. When nothing was erased
   * the missing parameter is reported, which raises an error only in builds
   * where AMGCL_PARAM_MISSING does. What is left goes to the back-end.
   */
  function Configure(cfg: BuildConfig, prm: Params): (r: Result<Setup, RuntimeError>)
    ensures r.Success? <==> ReadType(cfg, prm).Success? && (TypeKey in prm || !cfg.missingRaises)
    ensures r.Success? ==> r.value.tag == ReadType(cfg, prm).value && CaseOf(cfg, r.value.tag).Some?
    ensures r.Success? ==> TypeKey !in r.value.forwarded && r.value.forwarded == prm - {TypeKey}
    ensures TypeKey !in prm && cfg.missingRaises ==> r == Failure(MissingParameter(TypeKey))
    ensures TypeKey !in prm && !cfg.missingRaises ==> r == Success(Setup(Code(cfg, SkylineLu), prm))
    ensures ReadType(cfg, prm).Failure? ==> r == Failure(InvalidArgument(InvalidValueMessage(cfg)))
  {
    var tag :- ReadType(cfg, prm);
    if TypeKey !in prm && cfg.missingRaises then Failure(MissingParameter(TypeKey))
    else
      assert TypeKey !in prm ==> prm - {TypeKey} == prm;
      Success(Setup(tag, prm - {TypeKey}))
  }

  /** The back-end objects the constructor can allocate, with the parameters they receive. */
  datatype Backend =
    | SkylineLuSolver(prm: Params)
    | EigenSpluSolver(prm: Params)
    | PastixSolver(distributed: bool, prm: Params)

  /** The back-end classes a case can name: skyline_lu, eigen_splu and pastix<value_type, distributed>. */
  datatype BackendType = SkylineLuType | EigenSpluType | PastixType(distributed: bool)

  /** The class an allocated back-end object belongs to. */
  function TypeOf(b: Backend): BackendType {
    match b
    case SkylineLuSolver(_) => SkylineLuType
    case EigenSpluSolver(_) => EigenSpluType
    case PastixSolver(distributed, _) => PastixType(distributed)
  }

  /** The enumerator whose case is written for a back-end class. */
  function Label(bt: BackendType): SolverType {
    match bt
    case SkylineLuType => SkylineLu
    case EigenSpluType => EigenSplu
    case PastixType(distributed) => if distributed then DPastix else SPastix
  }

  /**
   * The constructor's switch: the back-end for the tag, or an error on the
   * default label. Building the back-end (`new S(comm, A, prm)`) is code this
   * model does not see; `fault` is what it throws, if anything, and nothing
   * catches it.
   */
  function Construct(cfg: BuildConfig, tag: int, prm: Params, fault: Option<RuntimeError>): (r: Result<Backend, RuntimeError>)
    ensures r.Success? <==> CaseOf(cfg, tag).Some? && fault.None?
    ensures r.Success? ==> Label(TypeOf(r.value)) == CaseOf(cfg, tag).value && r.value.prm == prm
    ensures CaseOf(cfg, tag).None? ==> r == Failure(InvalidArgument(Unsupported))
    ensures CaseOf(cfg, tag).Some? && fault.Some? ==> r == Failure(fault.value)
  {
    match CaseOf(cfg, tag)
    case None => Failure(InvalidArgument(Unsupported))
    case Some(t) =>
      if fault.Some? then Failure(fault.value)
      else
        match t
        case SkylineLu => Success(SkylineLuSolver(prm))
        case EigenSplu => Success(EigenSpluSolver(prm))
        case DPastix => Success(PastixSolver(true, prm))
        case SPastix => Success(PastixSolver(false, prm))
  }

  /**
   * The tag a constructor read from its parameters always has a case, so its
   * switch never reaches the default label: it fails only with the back-end's
   * own error.
   */
  lemma ConfiguredTagConstructs(cfg: BuildConfig, prm: Params, fault: Option<RuntimeError>)
    requires Configure(cfg, prm).Success?
    ensures var setup := Configure(cfg, prm).value;
      && (Construct(cfg, setup.tag, setup.forwarded, fault).Success? <==> fault.None?)
      && (fault.Some? ==> Construct(cfg, setup.tag, setup.forwarded, fault) == Failure(fault.value))
  {
  }

  /** A call forwarded to a back-end: the class the handle is cast to, and the object. */
  datatype Cast = Cast(staticType: BackendType, target: Backend)

  /** operator()'s switch: cast the handle to the class its case names; error on the default label. */
  function Dispatch(cfg: BuildConfig, tag: int, handle: Backend): (r: Result<Cast, RuntimeError>)
    ensures r.Success? <==> CaseOf(cfg, tag).Some?
    ensures r.Success? ==> r.value.target == handle && Label(r.value.staticType) == CaseOf(cfg, tag).value
    ensures r.Failure? ==> r.error == InvalidArgument(Unsupported)
  {
    match CaseOf(cfg, tag)
    case Some(SkylineLu) => Success(Cast(SkylineLuType, handle))
    case Some(EigenSplu) => Success(Cast(EigenSpluType, handle))
    case Some(DPastix) => Success(Cast(PastixType(true), handle))
    case Some(SPastix) => Success(Cast(PastixType(false), handle))
    case None => Failure(InvalidArgument(Unsupported))
  }

  /** The destructor's switch: the class deleted through, or nothing on the default label. */
  function Destroy(cfg: BuildConfig, tag: int): (r: Option<BackendType>)
    ensures r.Some? <==> CaseOf(cfg, tag).Some?
    ensures r.Some? ==> Label(r.value) == CaseOf(cfg, tag).value
  {
    match CaseOf(cfg, tag)
    case Some(SkylineLu) => Some(SkylineLuType)
    case Some(EigenSplu) => Some(EigenSpluType)
    case Some(DPastix) => Some(PastixType(true))
    case Some(SPastix) => Some(PastixType(false))
    case None => None
  }

  /** Each enumerator has its case for one class only. */
  lemma LabelInjective(a: BackendType, b: BackendType)
    requires Label(a) == Label(b)
    ensures a == b
  {
  }

  /**
   * The type erasure is sound: a handle built for a tag is cast back, on
   * every call and on release, to exactly the class it was allocated as.
   */
  lemma DispatchMatchesConstruct(cfg: BuildConfig, tag: int, prm: Params, fault: Option<RuntimeError>)
    requires Construct(cfg, tag, prm, fault).Success?
    ensures var h := Construct(cfg, tag, prm, fault).value;
      && Dispatch(cfg, tag, h) == Success(Cast(TypeOf(h), h))
      && Destroy(cfg, tag) == Some(TypeOf(h))
  {
    var h := Construct(cfg, tag, prm, fault).value;
    LabelInjective(Dispatch(cfg, tag, h).value.staticType, TypeOf(h));
    LabelInjective(Destroy(cfg, tag).value, TypeOf(h));
  }

  /**
   * On a tag outside the enumerators the constructor throws before any
   * back-end is built, so does the call, and the destructor does nothing.
   */
  lemma UnmatchedTag(cfg: BuildConfig, tag: int, h: Backend, prm: Params, fault: Option<RuntimeError>)
    requires !(0 <= tag < |Enumerators(cfg)|)
    ensures Construct(cfg, tag, prm, fault) == Failure(InvalidArgument(Unsupported))
    ensures Dispatch(cfg, tag, h) == Failure(InvalidArgument(Unsupported))
    ensures Destroy(cfg, tag) == None
  {
  }

  /** The runtime solver: the tag is fixed at construction, the handle points to its back-end. */
  class Solver {
    const cfg: BuildConfig
    const tag: int
    var handle: Option<Backend>

    /** While the handle is held, it is an object of the class the tag's case names. */
    ghost predicate Valid()
      reads this
    {
      handle.Some? ==> CaseOf(cfg, tag).Some? && Label(TypeOf(handle.value)) == CaseOf(cfg, tag).value
    }

    constructor (cfg: BuildConfig, tag: int, b: Backend)
      requires CaseOf(cfg, tag).Some? && Label(TypeOf(b)) == CaseOf(cfg, tag).value
      ensures this.cfg == cfg && this.tag == tag && handle == Some(b)
      ensures Valid()
    {
      this.cfg, this.tag, handle := cfg, tag, Some(b);
    }

    /**
     * solver(comm, A, prm): reads and erases "type", then allocates the
     * back-end for it with the remaining parameters. `fault` is what building
     * the back-end throws, if anything; it reaches the caller unchanged.
     */
    static method Create(cfg: BuildConfig, prm: Params, fault: Option<RuntimeError>) returns (r: Result<Solver, RuntimeError>)
      ensures r.Success? <==> Configure(cfg, prm).Success? && fault.None?
      ensures Configure(cfg, prm).Failure? ==> r.Failure? && r.error == Configure(cfg, prm).error
      ensures Configure(cfg, prm).Success? && fault.Some? ==> r.Failure? && r.error == fault.value
      ensures r.Success? ==> fresh(r.value) && r.value.Valid() && r.value.cfg == cfg
      ensures r.Success? ==> r.value.tag == Configure(cfg, prm).value.tag
      ensures r.Success? ==> r.value.handle == Some(Construct(cfg, r.value.tag, prm - {TypeKey}, None).value)
    {
      var setup :- Configure(cfg, prm);
      // The switch's default label cannot be reached from a parsed tag
      // (ConfiguredTagConstructs), so only the back-end itself can fail.
      var b :- Construct(cfg, setup.tag, setup.forwarded, fault);
      var s := new Solver(cfg, setup.tag, b);
      return Success(s);
    }

    /**
     * operator()(rhs, x): casts the handle to the class the stored tag's
     * case names and forwards the call; changes nothing.
     */
    method Apply() returns (r: Result<Cast, RuntimeError>)
      requires handle.Some?
      ensures r.Success? <==> CaseOf(cfg, tag).Some?
      ensures r.Success? ==> r.value.target == handle.value && Label(r.value.staticType) == CaseOf(cfg, tag).value
      ensures r.Failure? ==> r.error == InvalidArgument(Unsupported)
      ensures Valid() ==> r == Success(Cast(TypeOf(handle.value), handle.value))
    {
      r := Dispatch(cfg, tag, handle.value);
      if r.Success? && Valid() {
        LabelInjective(r.value.staticType, TypeOf(handle.value));
      }
    }

    /**
     * ~solver(): deletes the handle through the class the stored tag's case
     * names; on the default label it does nothing and the handle stays.
     */
    method Release() returns (freed: Option<BackendType>)
      modifies this
      ensures freed == Destroy(cfg, tag)
      ensures old(Valid()) && freed.Some? && old(handle).Some? ==> freed.value == TypeOf(old(handle).value)
      ensures freed.Some? ==> handle == None
      ensures freed.None? ==> handle == old(handle)
      ensures old(Valid()) ==> Valid()
    {
      freed := Destroy(cfg, tag);
      if freed.Some? {
        if handle.Some? && Valid() {
          LabelInjective(freed.value, TypeOf(handle.value));
        }
        handle := None;
      }
    }
  }
}
