/**
 * The local-mode flag arithmetic behind turning terminal echo on and off on
 * a Unix terminal: the c_lflag word handed to tcsetattr.
 */
module Terminal {
  import opened Wrappers

  /** A termios c_lflag word. */
  type Flags = bv64

  /** ECHO: echo typed characters (0x8 on Linux and on BSD/macOS alike). */
  const Echo: Flags := 0x8
  /**
   * The source's ICANON, 0x100: line-buffered (canonical) input on BSD and
   * macOS. On Linux ICANON is 0x2 and 0x100 is TOSTOP, so there the same
   * arithmetic clears TOSTOP and leaves canonical input on.
   */
  const Canonical: Flags := 0x100

  /** Both modes that turning echo off clears. */
  const EchoModes: Flags := Canonical | Echo

  /** The flags with echo and canonical input cleared, and every other mode kept. */
  function EchoOff(current: Flags): (r: Flags)
    ensures r & EchoModes == 0
    ensures r & !EchoModes == current & !EchoModes
  {
    current & !(Canonical | Echo)
  }

  /**
   * UnixExtendedTerminalThings.localEcho: when standard input is not a
   * terminal nothing is set (None); turning echo on restores the flags saved
   * at start-up, turning it off clears ECHO and ICANON in the current flags.
   */
  function LocalEchoFlags(stdinIsTty: bool, on: bool, defaults: Flags, current: Flags): (r: Option<Flags>)
    ensures r.None? <==> !stdinIsTty
    ensures r.Some? && on ==> r.value == defaults
    ensures r.Some? && !on ==> r.value == EchoOff(current)
  {
    if !stdinIsTty then None
    else if on then Some(defaults)
    else Some(EchoOff(current))
  }

  /** Turning echo off twice sets the same flags as turning it off once. */
  lemma EchoOffIdempotent(f: Flags)
    ensures EchoOff(EchoOff(f)) == EchoOff(f)
  {
  }

  /** Turning echo off and then on again gives back the start-up flags, whatever was current. */
  lemma EchoOffThenOnRestores(defaults: Flags, current: Flags)
    ensures LocalEchoFlags(true, true, defaults, LocalEchoFlags(true, false, defaults, current).value) == Some(defaults)
  {
  }

  /**
   * Turning echo off keeps any mode outside ECHO and ICANON: set bits stay
   * set, clear bits stay clear.
   */
  lemma EchoOffKeepsOtherModes(f: Flags, mode: Flags)
    requires mode & EchoModes == 0
    ensures EchoOff(f) & mode == f & mode
  {
    assert EchoOff(f) & mode == (f & !EchoModes) & mode;
  }
}
