/** The image transfer callbacks of the DLMS server: initiate, block, verify, activate, under
    file and clock failures. DLMS UA Blue Book Ed. 12 (IEC 62056-6-2), section 4.4.6. */
module ImageTransfer {

  datatype Status =
    | NotInitiated | Initiated
    | VerificationInitiated | VerificationSuccessful | VerificationFailed
    | ActivationInitiated | ActivationSuccessful | ActivationFailed

  datatype Error = NoError | UnmatchType | HardwareFault | OtherReason | TemporaryFailure

  /** An action on the image transfer object; `args` is the number of parameters received. */
  datatype Request =
    | Initiate(args: nat, name: string, size: int)
    | Block(args: nat, data: seq<bv8>)
    | Verify
    | Activate

  /** What the environment does during one action: whether a file can be opened, how many
      bytes a write takes, and the time. */
  datatype Env = Env(opens: bool, writes: nat, now: int)

  datatype State = State(status: Status, name: string, files: map<string, seq<bv8>>, imageSize: int, startTime: int)

  const WAIT := 5

  /** A file length as the 32-bit int it is cast to. */
  function Int32(n: int): int {
    var m := n % 0x1_0000_0000;
    if m < 0x8000_0000 then m else m - 0x1_0000_0000
  }

  function Taken(data: seq<bv8>, env: Env): seq<bv8> {
    if env.writes < |data| then data[..env.writes] else data
  }

  function Content(files: map<string, seq<bv8>>, name: string): seq<bv8> {
    if name in files then files[name] else []
  }

  /** One action of the server's own handler. */
  function Handle(s: State, r: Request, env: Env): (State, Error) {
    match r
    case Initiate(args, name, size) =>
      if args != 2 then (s.(status := NotInitiated), UnmatchType)
      else
        var t := s.(status := NotInitiated, imageSize := size, name := name + ".bin");
        if !env.opens then (t, HardwareFault) else (t.(files := t.files[t.name := []]), NoError)
    case Block(args, data) =>
      if args != 2 then (s, UnmatchType)
      else if !env.opens then (s.(status := Initiated), HardwareFault)
      else
        (s.(status := Initiated, startTime := env.now,
            files := s.files[s.name := Content(s.files, s.name) + Taken(data, env)]),
         if env.writes < |data| then UnmatchType else NoError)
    case Verify =>
      if !env.opens || s.name !in s.files then (s.(status := VerificationInitiated), HardwareFault)
      else if Int32(|s.files[s.name]|) != s.imageSize then (s.(status := VerificationFailed), OtherReason)
      else if env.now - s.startTime < WAIT then (s.(status := VerificationInitiated), TemporaryFailure)
      else (s.(status := VerificationSuccessful, startTime := env.now), NoError)
    case Activate =>
      if env.now - s.startTime < WAIT then (s.(status := ActivationInitiated), TemporaryFailure)
      else (s.(status := ActivationSuccessful, startTime := env.now), NoError)
  }

  class ImageTransferServer {
    var status: Status
    var imageFile: string
    var files: map<string, seq<bv8>>
    var imageSize: int
    var imageActionStartTime: int

    ghost function Current(): State
      reads this
    {
      State(status, imageFile, files, imageSize, imageActionStartTime)
    }

    constructor (files: map<string, seq<bv8>>)
      ensures Current() == State(NotInitiated, "", files, 0, 0)
    {
      status, imageFile, this.files, imageSize, imageActionStartTime := NotInitiated, "", files, 0, 0;
    }

    method HandleImageTransfer(r: Request, env: Env) returns (error: Error)
      modifies this
      ensures (Current(), error) == Handle(old(Current()), r, env)
    {
      error := NoError;
      match r {
        case Initiate(args, name, size) =>
          status := NotInitiated;
          if args != 2 {
            return UnmatchType;
          }
          imageSize := size;
          imageFile := name + ".bin";
          if !env.opens {
            return HardwareFault;
          }
          files := files[imageFile := []];
        case Block(args, data) =>
          if args != 2 {
            return UnmatchType;
          }
          status := Initiated;
          if !env.opens {
            return HardwareFault;
          }
          var ret := if env.writes < |data| then env.writes else |data|;
          var before := if imageFile in files then files[imageFile] else [];
          files := files[imageFile := before + data[..ret]];
          if ret != |data| {
            error := UnmatchType;
          } else {
            assert data[..ret] == data;
          }
          imageActionStartTime := env.now;
        case Verify =>
          status := VerificationInitiated;
          if !env.opens || imageFile !in files {
            return HardwareFault;
          }
          var size := Int32(|files[imageFile]|);
          if size != imageSize {
            status := VerificationFailed;
            error := OtherReason;
          } else if env.now - imageActionStartTime < 5 {
            error := TemporaryFailure;
          } else {
            status := VerificationSuccessful;
            imageActionStartTime := env.now;
          }
        case Activate =>
          status := ActivationInitiated;
          if env.now - imageActionStartTime < 5 {
            error := TemporaryFailure;
          } else {
            status := ActivationSuccessful;
            imageActionStartTime := env.now;
          }
      }
    }

    /** The framework's own treatment of the action, which follows the handler. */
    method Invoke(r: Request)
      modifies this`status
      ensures Current() == Invoked(old(Current()), r)
    {
      if r.Initiate? || r.Block? {
        status := Initiated;
      }
    }
  }

  function Invoked(s: State, r: Request): State {
    if r.Initiate? || r.Block? then s.(status := Initiated) else s
  }

  // ---- Runs ----

  /** An action, its environment, and whether the framework's own treatment followed. */
  datatype Event = Event(request: Request, env: Env, invoked: bool)

  function Step(s: State, e: Event): State {
    var t := Handle(s, e.request, e.env).0;
    if e.invoked then Invoked(t, e.request) else t
  }

  function After(s: State, run: seq<Event>): State {
    if run == [] then s else Step(After(s, run[..|run| - 1]), run[|run| - 1])
  }

  // ---- What a run should leave behind, read off the events alone ----

  /** The last declared image name and size. */
  function Declared(s: State, run: seq<Event>): (string, int) {
    if run == [] then (s.name, s.imageSize)
    else
      var r := run[|run| - 1].request;
      if r.Initiate? && r.args == 2 then (r.name + ".bin", r.size) else Declared(s, run[..|run| - 1])
  }

  /** The bytes of file `name`: those taken by the blocks since the last initiate that opened it,
      or added to what was there before the run. */
  function Written(s: State, run: seq<Event>, name: string): seq<bv8> {
    if run == [] then Content(s.files, name)
    else
      var before, e := run[..|run| - 1], run[|run| - 1];
      if e.request.Initiate? && e.request.args == 2 && e.env.opens && e.request.name + ".bin" == name then []
      else if e.request.Block? && e.request.args == 2 && e.env.opens && Declared(s, before).0 == name
      then Written(s, before, name)
           + e.request.data[..if e.env.writes < |e.request.data| then e.env.writes else |e.request.data|]
      else Written(s, before, name)
  }

  /** In every reachable state each file is what the run wrote to it, and the name and size are those last declared. */
  lemma {:induction false} FilesAreWritten(s: State, run: seq<Event>, name: string)
    ensures Content(After(s, run).files, name) == Written(s, run, name)
    ensures (After(s, run).name, After(s, run).imageSize) == Declared(s, run)
  {
    if run != [] {
      FilesAreWritten(s, run[..|run| - 1], name);
      FilesAreWritten(s, run[..|run| - 1], Declared(s, run[..|run| - 1]).0);
    }
  }

  /** Whether the file `name` is there: it was, or an initiate opened it, or a block was written to it. */
  predicate Present(s: State, run: seq<Event>, name: string) {
    if run == [] then name in s.files
    else
      var before, e := run[..|run| - 1], run[|run| - 1];
      || (e.request.Initiate? && e.request.args == 2 && e.env.opens && e.request.name + ".bin" == name)
      || (e.request.Block? && e.request.args == 2 && e.env.opens && Declared(s, before).0 == name)
      || Present(s, before, name)
  }

  /** The length as declared, in a signed 32-bit int. */
  predicate SameSize(length: nat, size: int) {
    -0x8000_0000 <= size < 0x8000_0000 && (length - size) % 0x1_0000_0000 == 0
  }

  /** What a verify asks for: the image file can be opened and is there, has the declared length, and
      five seconds have passed since the last block write or success. */
  predicate VerifyPasses(s: State, run: seq<Event>, env: Env)
    decreases |run|, 1
  {
    var (name, size) := Declared(s, run);
    && env.opens && Present(s, run, name) && SameSize(|Written(s, run, name)|, size)
    && env.now - LastTime(s, run) >= 5
  }

  /** The time of the last block write that reached a file, or of the last success. */
  function LastTime(s: State, run: seq<Event>): int
    decreases |run|, 0
  {
    if run == [] then s.startTime
    else
      var before, e := run[..|run| - 1], run[|run| - 1];
      if (e.request.Block? && e.request.args == 2 && e.env.opens)
        || (e.request.Verify? && VerifyPasses(s, before, e.env))
        || (e.request.Activate? && e.env.now - LastTime(s, before) >= 5)
      then e.env.now else LastTime(s, before)
  }

  lemma Int32Is(n: nat, size: int)
    ensures Int32(n) == size <==> SameSize(n, size)
  {
  }

  /** In every reachable state the files there are and the timer are those of the run. */
  lemma {:induction false} TimerIsLastTime(s: State, run: seq<Event>, name: string)
    ensures name in After(s, run).files <==> Present(s, run, name)
    ensures After(s, run).startTime == LastTime(s, run)
  {
    hide Written, Declared, Int32, SameSize;
    if run != [] {
      var before := run[..|run| - 1];
      TimerIsLastTime(s, before, name);
      var declared := Declared(s, before).0;
      FilesAreWritten(s, before, declared);
      TimerIsLastTime(s, before, declared);
      Int32Is(|Written(s, before, declared)|, After(s, before).imageSize);
    }
  }

  /** The status an action leaves and the error it answers, after every run and for every action, told
      from the run alone. A verify succeeds exactly when `VerifyPasses`. */
  lemma ActionOutcome(s: State, run: seq<Event>, e: Event)
    ensures var (name, size) := Declared(s, run);
      var found := e.env.opens && Present(s, run, name);
      var complete := SameSize(|Written(s, run, name)|, size);
      var waited := e.env.now - LastTime(s, run) >= 5;
      (After(s, run + [e]).status, Handle(After(s, run), e.request, e.env).1)
      == match e.request
         case Initiate(args, _, _) =>
           (if e.invoked then Initiated else NotInitiated,
            if args != 2 then UnmatchType else if e.env.opens then NoError else HardwareFault)
         case Block(args, data) =>
           (if e.invoked || args == 2 then Initiated else After(s, run).status,
            if args != 2 then UnmatchType
            else if !e.env.opens then HardwareFault
            else if e.env.writes < |data| then UnmatchType else NoError)
         case Verify =>
           if !found then (VerificationInitiated, HardwareFault)
           else if !complete then (VerificationFailed, OtherReason)
           else if !waited then (VerificationInitiated, TemporaryFailure)
           else (VerificationSuccessful, NoError)
         case Activate =>
           if waited then (ActivationSuccessful, NoError) else (ActivationInitiated, TemporaryFailure)
  {
    hide Written, Declared, Int32, SameSize, Present, LastTime;
    assert (run + [e])[..|run|] == run;
    var name := Declared(s, run).0;
    FilesAreWritten(s, run, name);
    TimerIsLastTime(s, run, name);
    Int32Is(|Written(s, run, name)|, After(s, run).imageSize);
  }

  // ---- A transfer without failures ----

  /** The data of blocks, put together. */
  function Data(blocks: seq<Event>): seq<bv8> {
    if blocks == [] then []
    else
      var last := blocks[|blocks| - 1].request;
      Data(blocks[..|blocks| - 1]) + if last.Block? then last.data else []
  }

  /** A block that is written in full. */
  predicate Complete(e: Event) {
    e.request.Block? && e.request.args == 2 && e.env.opens && |e.request.data| <= e.env.writes
  }

  lemma {:induction false} BlocksWritten(s: State, opening: Event, blocks: seq<Event>)
    requires opening.request.Initiate? && opening.request.args == 2 && opening.env.opens
    requires forall i :: 0 <= i < |blocks| ==> Complete(blocks[i])
    ensures var run, name := [opening] + blocks, opening.request.name + ".bin";
      && Declared(s, run) == (name, opening.request.size) && Present(s, run, name)
      && Written(s, run, name) == Data(blocks)
      && LastTime(s, run) == if blocks == [] then s.startTime else blocks[|blocks| - 1].env.now
  {
    var run := [opening] + blocks;
    if blocks == [] {
      assert run == [opening] && run[..0] == [];
    } else {
      var n := |blocks| - 1;
      assert run[..n + 1] == [opening] + blocks[..n];
      BlocksWritten(s, opening, blocks[..n]);
    }
  }

  /** An initiate that opens the file, blocks written in full, a wait of five seconds and a verify: the
      image is verified, and holds the data of the blocks. A wait and an activate: it is activated. */
  lemma TransferSucceeds(s: State, opening: Event, blocks: seq<Event>, verify: Event, activate: Event)
    requires opening.request.Initiate? && opening.request.args == 2 && opening.env.opens
    requires forall i :: 0 <= i < |blocks| ==> Complete(blocks[i])
    requires |Data(blocks)| == opening.request.size < 0x8000_0000
    requires verify.request.Verify? && verify.env.opens
    requires verify.env.now - (if blocks == [] then s.startTime else blocks[|blocks| - 1].env.now) >= 5
    requires activate.request.Activate? && activate.env.now - verify.env.now >= 5
    ensures var run := [opening] + blocks + [verify];
      && After(s, run).status == VerificationSuccessful
      && Content(After(s, run).files, opening.request.name + ".bin") == Data(blocks)
      && After(s, run + [activate]).status == ActivationSuccessful
  {
    hide After, Handle, Written, Declared, Present, Data, Content, Int32;
    var run := [opening] + blocks;
    BlocksWritten(s, opening, blocks);
    ActionOutcome(s, run, verify);
    assert (run + [verify])[..|run|] == run;
    assert LastTime(s, run + [verify]) == verify.env.now by { hide LastTime; VerifyTakesTime(s, run, verify); }
    ActionOutcome(s, run + [verify], activate);
    FilesAreWritten(s, run + [verify], opening.request.name + ".bin");
    VerifyWritesNothing(s, run, verify, opening.request.name + ".bin");
  }

  lemma VerifyTakesTime(s: State, run: seq<Event>, verify: Event)
    requires verify.request.Verify? && VerifyPasses(s, run, verify.env)
    ensures LastTime(s, run + [verify]) == verify.env.now
  {
    hide VerifyPasses;
    assert (run + [verify])[..|run|] == run;
  }

  lemma VerifyWritesNothing(s: State, run: seq<Event>, verify: Event, name: string)
    requires verify.request.Verify?
    ensures Written(s, run + [verify], name) == Written(s, run, name)
  {
    assert (run + [verify])[..|run|] == run;
  }

  /** A verified image has the declared length. */
  predicate VerifiedSize(s: State) {
    s.status == VerificationSuccessful ==> s.name in s.files && Int32(|s.files[s.name]|) == s.imageSize
  }

  lemma {:induction false} VerifiedSizeKept(s: State, run: seq<Event>)
    requires VerifiedSize(s)
    ensures VerifiedSize(After(s, run))
  {
    if run != [] {
      VerifiedSizeKept(s, run[..|run| - 1]);
    }
  }

  /** Whenever the status is verified, the bytes written since the last initiate that opened the
      file are as many as that initiate declared, up to the 32-bit length. */
  lemma VerifiedImageIsComplete(s: State, run: seq<Event>)
    requires VerifiedSize(s) && After(s, run).status == VerificationSuccessful
    ensures var (name, size) := Declared(s, run);
            && Int32(|Written(s, run, name)|) == size
            && (|Written(s, run, name)| < 0x8000_0000 ==> |Written(s, run, name)| == size)
  {
    VerifiedSizeKept(s, run);
    FilesAreWritten(s, run, Declared(s, run).0);
  }

  /** Exactly when a verify succeeds: the file opens, has the declared length, and five seconds have passed. */
  lemma VerifySucceedsIff(s: State, env: Env)
    ensures Handle(s, Verify, env).1 == NoError <==>
            && env.opens && s.name in s.files && Int32(|s.files[s.name]|) == s.imageSize
            && env.now - s.startTime >= 5
  {
  }

  /** Verification looks at the length alone: whatever the order and content of the blocks, two
      files of one length get one verdict. */
  lemma VerifyChecksLengthOnly(s: State, env: Env, content: seq<bv8>)
    requires s.name in s.files && |content| == |s.files[s.name]|
    ensures Handle(s.(files := s.files[s.name := content]), Verify, env).1 == Handle(s, Verify, env).1
  {
  }

  // ---- Waiting times ----

  /** The outcome of action `t` of the run. */
  function Outcome(s: State, run: seq<Event>, t: nat): Error
    requires t < |run|
  {
    Handle(After(s, run[..t]), run[t].request, run[t].env).1
  }

  /** Action `t` is a verify or an activate that succeeds. */
  predicate Succeeds(s: State, run: seq<Event>, t: nat)
    requires t < |run|
  {
    (run[t].request.Verify? || run[t].request.Activate?) && Outcome(s, run, t) == NoError
  }

  /** Action `t` is a block write that reached the file. */
  predicate Writes(run: seq<Event>, t: nat)
    requires t < |run|
  {
    run[t].request.Block? && run[t].request.args == 2 && run[t].env.opens
  }

  predicate MonotoneClock(run: seq<Event>) {
    forall t, u :: 0 <= t <= u < |run| ==> run[t].env.now <= run[u].env.now
  }

  lemma {:induction false} TimerIsRecent(s: State, run: seq<Event>, u: nat, t: nat)
    requires MonotoneClock(run) && u < t <= |run| && (Writes(run, u) || Succeeds(s, run, u))
    ensures run[u].env.now <= After(s, run[..t]).startTime
    decreases t
  {
    assert run[..t][..t - 1] == run[..t - 1];
    if u < t - 1 {
      TimerIsRecent(s, run, u, t - 1);
    }
  }

  /** Every successful verify or activate comes at least five seconds after every earlier block
      write and every earlier success. */
  lemma SuccessWaits(s: State, run: seq<Event>, u: nat, t: nat)
    requires MonotoneClock(run) && u < t < |run|
    requires Succeeds(s, run, t) && (Writes(run, u) || Succeeds(s, run, u))
    ensures run[t].env.now - run[u].env.now >= 5
  {
    TimerIsRecent(s, run, u, t);
  }

  // ---- Activation ----

  /** An activation succeeds on the clock alone, whatever was verified. */
  lemma ActivateSucceedsIff(s: State, env: Env)
    ensures Handle(s, Activate, env).1 == NoError <==> env.now - s.startTime >= 5
  {
  }

  /** Every activation that succeeds finds the status verified. */
  predicate ActivatesVerified(s: State, run: seq<Event>) {
    forall t :: 0 <= t < |run| && run[t].request.Activate? && Outcome(s, run, t) == NoError
      ==> After(s, run[..t]).status == VerificationSuccessful
  }

  /** The client's own check that makes activation safe: it asks for activation only when the
      status says verified, or too early for any activation to succeed. */
  predicate ClientChecks(s: State, run: seq<Event>) {
    forall t :: 0 <= t < |run| && run[t].request.Activate?
      ==> After(s, run[..t]).status == VerificationSuccessful
          || run[t].env.now - After(s, run[..t]).startTime < 5
  }

  /** The server itself does not check; safety is exactly the client's check. */
  lemma ActivationSafeIffChecked(s: State, run: seq<Event>)
    ensures ActivatesVerified(s, run) <==> ClientChecks(s, run)
  {
    forall t | 0 <= t < |run| && run[t].request.Activate?
      ensures Outcome(s, run, t) == NoError <==> run[t].env.now - After(s, run[..t]).startTime >= 5
    {
      ActivateSucceedsIff(After(s, run[..t]), run[t].env);
    }
  }

  // ---- What a verified status stands for ----

  /** Action `u` neither starts an image nor puts bytes into it. */
  predicate Leaves(run: seq<Event>, u: nat)
    requires u < |run|
  {
    !run[u].request.Initiate? && !Writes(run, u)
  }

  /** Action `t` is a verify that found the image of the same name and the same bytes as after the
      run, complete and five seconds old, and nothing started or wrote an image since. */
  predicate VerifiedBy(s: State, run: seq<Event>, t: nat)
    requires t < |run|
  {
    var seen, last := After(s, run[..t]), After(s, run);
    && run[t].request.Verify? && Outcome(s, run, t) == NoError
    && (forall u :: t < u < |run| ==> Leaves(run, u))
    && seen.name == last.name && seen.imageSize == last.imageSize
    && seen.name in seen.files && last.name in last.files && seen.files[seen.name] == last.files[last.name]
    && Int32(|last.files[last.name]|) == last.imageSize
    && run[t].env.now - seen.startTime >= 5
  }

  /** What an action does to a verified status. */
  lemma StaysVerified(s: State, e: Event)
    requires Step(s, e).status == VerificationSuccessful
    ensures (e.request.Verify? && Handle(s, e.request, e.env).1 == NoError)
         || (s.status == VerificationSuccessful && Step(s, e) == s
             && !e.request.Initiate? && !(e.request.Block? && e.request.args == 2))
  {
    if e.request.Verify? { VerifySucceedsIff(s, e.env); }
  }

  /** In every reachable state a verified status goes back to such a verify. */
  lemma {:induction false} VerifiedWasSeen(s: State, run: seq<Event>) returns (t: nat)
    requires s.status != VerificationSuccessful && After(s, run).status == VerificationSuccessful
    ensures t < |run| && VerifiedBy(s, run, t)
    decreases |run|
  {
    var n := |run| - 1;
    var before, e := run[..n], run[n];
    StaysVerified(After(s, before), e);
    if e.request.Verify? && Handle(After(s, before), e.request, e.env).1 == NoError {
      t := n;
      VerifySucceedsIff(After(s, before), e.env);
    } else {
      t := VerifiedWasSeen(s, before);
      assert before[..t] == run[..t] && before[t] == run[t];
      forall u | t < u < |run| ensures Leaves(run, u) {
        if u < n { assert before[u] == run[u] && Leaves(before, u); }
      }
    }
  }

  /** With the client's check every activated image is one that a verify has seen, byte for byte. */
  lemma ActivatedWasSeen(s: State, run: seq<Event>, t: nat) returns (v: nat)
    requires s.status != VerificationSuccessful && ClientChecks(s, run)
    requires t < |run| && run[t].request.Activate? && Outcome(s, run, t) == NoError
    ensures v < t && VerifiedBy(s, run[..t], v)
  {
    ActivationSafeIffChecked(s, run);
    v := VerifiedWasSeen(s, run[..t]);
  }

  /** With that check every activated image has the declared length. */
  lemma CheckedActivationIsComplete(s: State, run: seq<Event>, t: nat)
    requires VerifiedSize(s) && ClientChecks(s, run)
    requires t < |run| && run[t].request.Activate? && Outcome(s, run, t) == NoError
    ensures var (name, size) := Declared(s, run[..t]);
            Int32(|Written(s, run[..t], name)|) == size
  {
    ActivationSafeIffChecked(s, run);
    VerifiedImageIsComplete(s, run[..t]);
  }

  /** A run in which a truncated image fails verification and is then activated. */
  const UNVERIFIED: seq<Event> := [
    Event(Initiate(2, "image", 2), Env(true, 2, 10), true),
    Event(Block(2, [1]), Env(true, 1, 11), true),
    Event(Verify, Env(true, 0, 20), true),
    Event(Activate, Env(true, 0, 30), true)
  ]

  lemma AfterNext(s: State, run: seq<Event>, t: nat)
    requires t < |run|
    ensures After(s, run[..t + 1]) == Step(After(s, run[..t]), run[t])
  {
    assert run[..t + 1][..t] == run[..t];
  }

  lemma AfterNone(s: State, run: seq<Event>)
    ensures After(s, run[..0]) == s
  {
  }

  lemma FailedImageActivated()
    ensures var s := State(NotInitiated, "", map[], 0, 0);
            && After(s, UNVERIFIED[..3]).status == VerificationFailed
            && After(s, UNVERIFIED).status == ActivationSuccessful
            && !ActivatesVerified(s, UNVERIFIED)
  {
    hide After;
    var s, run := State(NotInitiated, "", map[], 0, 0), UNVERIFIED;
    AfterNone(s, run);
    AfterNext(s, run, 0);
    AfterNext(s, run, 1);
    AfterNext(s, run, 2);
    AfterNext(s, run, 3);
    assert run[..4] == run;
    assert |After(s, run[..2]).files["image" + ".bin"]| == 1;
    assert Outcome(s, run, 3) == NoError;
  }
}
