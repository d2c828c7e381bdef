/** The lines that kdesu_stub prints (src/kdesu_stub.c:63-73, 221, 239) and libkdesu recognises
    (src/stubprocess.cpp:128-214). */
module StubWords {
  import opened ByteStrings

  datatype Word =
    | Header | Display | DisplayAuth | Command | Path | XWindowsOnly | User | Priority | Scheduler
    | AppStartupId | AppStartPid | Environment | End

  /** The answer to the header when the installation is only checked: stop */
  const STOP_WORD: Bytes := [115, 116, 111, 112]

  function NameOf(w: Word): Bytes
  {
    match w
    case Header => [107, 100, 101, 115, 117, 95, 115, 116, 117, 98]  // kdesu_stub
    case Display => [100, 105, 115, 112, 108, 97, 121]  // display
    case DisplayAuth => [100, 105, 115, 112, 108, 97, 121, 95, 97, 117, 116, 104]  // display_auth
    case Command => [99, 111, 109, 109, 97, 110, 100]  // command
    case Path => [112, 97, 116, 104]  // path
    case XWindowsOnly => [120, 119, 105, 110, 100, 111, 119, 115, 95, 111, 110, 108, 121]  // xwindows_only
    case User => [117, 115, 101, 114]  // user
    case Priority => [112, 114, 105, 111, 114, 105, 116, 121]  // priority
    case Scheduler => [115, 99, 104, 101, 100, 117, 108, 101, 114]  // scheduler
    case AppStartupId => [97, 112, 112, 95, 115, 116, 97, 114, 116, 117, 112, 95, 105, 100]  // app_startup_id
    case AppStartPid => [97, 112, 112, 95, 115, 116, 97, 114, 116, 95, 112, 105, 100]  // app_start_pid
    case Environment => [101, 110, 118, 105, 114, 111, 110, 109, 101, 110, 116]  // environment
    case End => [101, 110, 100]  // end
  }

  function Recognise(line: Bytes): Option<Word>
  {
    if line == NameOf(Header) then Some(Header)
    else if line == NameOf(Display) then Some(Display)
    else if line == NameOf(DisplayAuth) then Some(DisplayAuth)
    else if line == NameOf(Command) then Some(Command)
    else if line == NameOf(Path) then Some(Path)
    else if line == NameOf(XWindowsOnly) then Some(XWindowsOnly)
    else if line == NameOf(User) then Some(User)
    else if line == NameOf(Priority) then Some(Priority)
    else if line == NameOf(Scheduler) then Some(Scheduler)
    else if line == NameOf(AppStartupId) then Some(AppStartupId)
    else if line == NameOf(AppStartPid) then Some(AppStartPid)
    else if line == NameOf(Environment) then Some(Environment)
    else if line == NameOf(End) then Some(End)
    else None
  }

  lemma NamesDiffer(v: Word, w: Word)
    ensures NameOf(v) == NameOf(w) ==> v == w
  {
    assert v != w ==> |NameOf(v)| != |NameOf(w)| || NameOf(v)[0] != NameOf(w)[0];
  }

  /** The words are told apart, and nothing else is taken for one. */
  lemma RecognisesNames(line: Bytes, w: Word)
    ensures Recognise(line) == Some(w) <==> line == NameOf(w)
  {
    hide NameOf;
    forall v: Word
      ensures NameOf(v) == NameOf(w) ==> v == w
    {
      NamesDiffer(v, w);
    }
  }
}
