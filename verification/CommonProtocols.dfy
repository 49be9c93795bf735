/**
 * The parser that recognises text protocols by the first line of a TCP payload.
 * Bytes are read as characters one by one; case mapping and trimming are those of ASCII.
 */
module CommonProtocols {
  import opened Wire
  import opened SniParser

  function Text(data: Bytes): string {
    seq(|data|, i requires 0 <= i < |data| => data[i] as char)
  }

  predicate IsSpace(c: char) {
    c == ' ' || '\t' <= c <= '\r'
  }

  function Upper(s: string): (r: string)
    ensures |r| == |s| && forall i :: 0 <= i < |s| ==> (s[i] < 'a' ==> r[i] == s[i])
  {
    seq(|s|, i requires 0 <= i < |s| => if 'a' <= s[i] <= 'z' then s[i] - 32 as char else s[i])
  }

  function TrimLeft(s: string): string {
    if s != [] && IsSpace(s[0]) then TrimLeft(s[1..]) else s
  }

  function TrimRight(s: string): string {
    if s != [] && IsSpace(s[|s| - 1]) then TrimRight(s[..|s| - 1]) else s
  }

  /** The characters before the first line feed. */
  function FirstLine(s: string): string {
    if s == [] || s[0] == '\n' then [] else [s[0]] + FirstLine(s[1..])
  }

  function FirstProtocolLine(data: Bytes): string {
    TrimRight(TrimLeft(FirstLine(Text(data))))
  }

  predicate HasPrefix(line: string, p: string) {
    p <= line
  }

  predicate Contains(line: string, part: string) {
    exists k :: 0 <= k <= |line| && part <= line[k..]
  }

  predicate IsSmtpCommand(u: string) {
    HasPrefix(u, "EHLO ") || HasPrefix(u, "HELO ") || HasPrefix(u, "MAIL FROM:") ||
    HasPrefix(u, "RCPT TO:") || HasPrefix(u, "DATA") || HasPrefix(u, "QUIT")
  }

  predicate IsFtpCommand(u: string) {
    HasPrefix(u, "USER ") || HasPrefix(u, "PASS ") || HasPrefix(u, "LIST") ||
    HasPrefix(u, "RETR ") || HasPrefix(u, "STOR ") || HasPrefix(u, "SYST")
  }

  predicate IsImapCommand(u: string) {
    HasPrefix(u, "A001 ") || HasPrefix(u, "A002 ") || HasPrefix(u, "A003 ") ||
    HasPrefix(u, "LOGIN ") || HasPrefix(u, "SELECT ") || HasPrefix(u, "FETCH ")
  }

  predicate IsPop3Command(u: string) {
    HasPrefix(u, "APOP ") || HasPrefix(u, "STAT") || HasPrefix(u, "UIDL")
  }

  predicate IsReady(line: string) {
    HasPrefix(line, "220 ") || HasPrefix(line, "220-")
  }

  function CommonProtocolParser(data: Bytes): Verdict {
    var line := FirstProtocolLine(data);
    var u := Upper(line);
    if HasPrefix(line, "SSH-") && |line| >= 8 then Verdict(Ssh, [])
    else if IsSmtpCommand(u) then Verdict(Smtp, [])
    else if IsFtpCommand(u) then Verdict(Ftp, [])
    else if IsImapCommand(u) then Verdict(Imap, [])
    else if IsPop3Command(u) then Verdict(Pop3, [])
    else if IsReady(line) && (Contains(u, "SMTP") || Contains(u, "ESMTP") || Contains(u, "MAIL")) then
      Verdict(Smtp, [])
    else if IsReady(line) && (Contains(u, "FTP") || Contains(u, "FILEZILLA")) then Verdict(Ftp, [])
    else if HasPrefix(line, "* OK") && (Contains(u, "IMAP") || Contains(u, "IMAP4")) then Verdict(Imap, [])
    else if HasPrefix(line, "+OK") && (Contains(u, "POP3") || Contains(u, "POP")) then Verdict(Pop3, [])
    else PLAIN_TCP
  }

  // ----- a TLS record is none of these

  lemma {:induction false} TrimRightKeepsHead(s: string)
    requires s != [] && !IsSpace(s[0])
    ensures TrimRight(s) != [] && TrimRight(s)[0] == s[0]
  {
    if IsSpace(s[|s| - 1]) {
      TrimRightKeepsHead(s[..|s| - 1]);
    }
  }

  lemma {:induction false} NoCommand(u: string)
    requires u != [] && u[0] == 0x16 as char
    ensures !IsSmtpCommand(u) && !IsFtpCommand(u)
  {
  }

  lemma {:induction false} NoMailCommand(u: string)
    requires u != [] && u[0] == 0x16 as char
    ensures !IsImapCommand(u) && !IsPop3Command(u)
  {
  }

  lemma {:induction false} NoGreeting(line: string)
    requires line != [] && line[0] == 0x16 as char
    ensures !HasPrefix(line, "SSH-") && !IsReady(line) && !HasPrefix(line, "* OK") && !HasPrefix(line, "+OK")
  {
  }

  lemma {:induction false} TlsLine(data: Bytes)
    requires data != [] && data[0] == 0x16
    ensures FirstProtocolLine(data) != [] && FirstProtocolLine(data)[0] == 0x16 as char
  {
    TrimRightKeepsHead(FirstLine(Text(data)));
  }

  /** What starts like a TLS handshake record is never taken for a text protocol. */
  lemma {:induction false} CommonRejectsTls(data: Bytes)
    requires data != [] && data[0] == 0x16
    ensures CommonProtocolParser(data) == PLAIN_TCP
  {
    var line := FirstProtocolLine(data);
    TlsLine(data);
    NoGreeting(line);
    NoCommand(Upper(line));
    NoMailCommand(Upper(line));
  }

  // ----- what is recognised

  const COMMANDS: seq<(string, Proto)> := [
    ("EHLO ", Smtp), ("HELO ", Smtp), ("MAIL FROM:", Smtp), ("RCPT TO:", Smtp), ("DATA", Smtp), ("QUIT", Smtp),
    ("USER ", Ftp), ("PASS ", Ftp), ("LIST", Ftp), ("RETR ", Ftp), ("STOR ", Ftp), ("SYST", Ftp),
    ("A001 ", Imap), ("A002 ", Imap), ("A003 ", Imap), ("LOGIN ", Imap), ("SELECT ", Imap), ("FETCH ", Imap),
    ("APOP ", Pop3), ("STAT", Pop3), ("UIDL", Pop3)]

  ghost predicate IsCommand(u: string, i: nat) {
    i < |COMMANDS| && COMMANDS[i].0 <= u
  }

  /** The capitals of the word may be small letters at the start of the line. */
  predicate StartsLike(line: string, word: string) {
    |word| <= |line|
    && forall k :: 0 <= k < |word| ==>
         line[k] == word[k] || ('A' <= word[k] <= 'Z' && line[k] as int == word[k] as int + 32)
  }

  predicate Mentions(line: string, word: string) {
    exists k :: 0 <= k <= |line| && StartsLike(line[k..], word)
  }

  lemma {:induction false} StartsLikeIff(line: string, word: string)
    requires forall c <- word :: c < 'a'
    ensures StartsLike(line, word) <==> word <= Upper(line)
  {
    var u := Upper(line);
    if |word| <= |line| {
      forall k | 0 <= k < |word|
        ensures u[k] == word[k] <==>
                line[k] == word[k] || ('A' <= word[k] <= 'Z' && line[k] as int == word[k] as int + 32)
      {
        assert word[k] in word;
        assert 'a' <= line[k] <= 'z' ==> u[k] as int == line[k] as int - 32;
      }
      assert word <= u <==> forall k :: 0 <= k < |word| ==> u[k] == word[k];
    }
  }

  lemma {:induction false} MentionsIff(line: string, word: string)
    requires forall c <- word :: c < 'a'
    ensures Mentions(line, word) <==> Contains(Upper(line), word)
  {
    forall k | 0 <= k <= |line|
      ensures StartsLike(line[k..], word) <==> word <= Upper(line)[k..]
    {
      StartsLikeIff(line[k..], word);
      assert Upper(line[k..]) == Upper(line)[k..];
    }
  }

  lemma {:induction false} CommandsAreCapital(i: nat)
    requires i < |COMMANDS|
    ensures forall c <- COMMANDS[i].0 :: c < 'a'
  {
  }

  /** A line that starts with a known command, in capitals or not, tells the protocol. */
  lemma {:induction false} CommandIsRecognised(data: Bytes, i: nat)
    requires i < |COMMANDS| && StartsLike(FirstProtocolLine(data), COMMANDS[i].0)
    ensures CommonProtocolParser(data) == Verdict(COMMANDS[i].1, [])
  {
    CommandsAreCapital(i);
    StartsLikeIff(FirstProtocolLine(data), COMMANDS[i].0);
    var line, u := FirstProtocolLine(data), Upper(FirstProtocolLine(data));
    var command := COMMANDS[i].0;
    assert forall k :: 0 <= k < |command| ==> u[k] == command[k];
    SshUpper(line);
    CommandsDiffer(u, i);
  }

  lemma {:induction false} SshUpper(line: string)
    ensures "SSH-" <= line ==> |Upper(line)| >= 4 && Upper(line)[0] == 'S' && Upper(line)[1] == 'S'
  {
    if "SSH-" <= line {
      assert line[0] == "SSH-"[0] && line[1] == "SSH-"[1];
    }
  }

  /** The prefixes of one protocol exclude those of the others. */
  lemma {:induction false} CommandsDiffer(u: string, i: nat)
    requires IsCommand(u, i)
    ensures IsSmtpCommand(u) <==> COMMANDS[i].1 == Smtp
    ensures IsFtpCommand(u) <==> COMMANDS[i].1 == Ftp
    ensures IsImapCommand(u) <==> COMMANDS[i].1 == Imap
    ensures IsPop3Command(u) <==> COMMANDS[i].1 == Pop3
    ensures !(u[0] == 'S' && u[1] == 'S')
  {
    SmtpDiffers(u, i);
    FtpDiffers(u, i);
    ImapDiffers(u, i);
    Pop3Differs(u, i);
  }

  lemma {:induction false} SmtpDiffers(u: string, i: nat)
    requires IsCommand(u, i)
    ensures IsSmtpCommand(u) <==> COMMANDS[i].1 == Smtp
    ensures !(u[0] == 'S' && u[1] == 'S')
  {
    var c := COMMANDS[i].0;
    assert u[0] == c[0] && u[1] == c[1] && u[2] == c[2] && u[3] == c[3];
  }

  lemma {:induction false} FtpDiffers(u: string, i: nat)
    requires IsCommand(u, i)
    ensures IsFtpCommand(u) <==> COMMANDS[i].1 == Ftp
  {
    var c := COMMANDS[i].0;
    assert u[0] == c[0] && u[1] == c[1] && u[2] == c[2] && u[3] == c[3];
  }

  lemma {:induction false} ImapDiffers(u: string, i: nat)
    requires IsCommand(u, i)
    ensures IsImapCommand(u) <==> COMMANDS[i].1 == Imap
  {
    var c := COMMANDS[i].0;
    assert u[0] == c[0] && u[1] == c[1] && u[2] == c[2] && u[3] == c[3];
  }

  lemma {:induction false} Pop3Differs(u: string, i: nat)
    requires IsCommand(u, i)
    ensures IsPop3Command(u) <==> COMMANDS[i].1 == Pop3
  {
    var c := COMMANDS[i].0;
    assert u[0] == c[0] && u[1] == c[1] && u[2] == c[2] && u[3] == c[3];
  }

  lemma {:induction false} NoCommandIff(u: string)
    ensures (forall i :: !IsCommand(u, i))
       <==> !IsSmtpCommand(u) && !IsFtpCommand(u) && !IsImapCommand(u) && !IsPop3Command(u)
  {
    if forall i :: !IsCommand(u, i) {
      assert forall i: nat :: i < 21 ==> !IsCommand(u, i);
      NoneIsPrefix(u);
    } else {
      var i: nat :| IsCommand(u, i);
      CommandsDiffer(u, i);
    }
  }

  lemma {:induction false} NoneIsPrefix(u: string)
    requires forall i: nat :: i < 21 ==> !IsCommand(u, i)
    ensures !IsSmtpCommand(u) && !IsFtpCommand(u) && !IsImapCommand(u) && !IsPop3Command(u)
  {
    assert !IsCommand(u, 0) && !IsCommand(u, 1) && !IsCommand(u, 2) && !IsCommand(u, 3) && !IsCommand(u, 4);
    assert !IsCommand(u, 5) && !IsCommand(u, 6) && !IsCommand(u, 7) && !IsCommand(u, 8) && !IsCommand(u, 9);
    assert !IsCommand(u, 10) && !IsCommand(u, 11) && !IsCommand(u, 12) && !IsCommand(u, 13) && !IsCommand(u, 14);
    assert !IsCommand(u, 15) && !IsCommand(u, 16) && !IsCommand(u, 17) && !IsCommand(u, 18) && !IsCommand(u, 19);
    assert !IsCommand(u, 20);
  }

  /** What a greeting tells, given what it mentions; everything else is plain TCP. */
  predicate Greets(line: string, v: Verdict, asSmtp: bool, asFtp: bool, asImap: bool, asPop: bool) {
    && ("SSH-" <= line && |line| >= 8 ==> v == Verdict(Ssh, []))
    && ("220 " <= line || "220-" <= line ==>
          v == if asSmtp then Verdict(Smtp, []) else if asFtp then Verdict(Ftp, []) else PLAIN_TCP)
    && ("* OK" <= line ==> v == if asImap then Verdict(Imap, []) else PLAIN_TCP)
    && ("+OK" <= line ==> v == if asPop then Verdict(Pop3, []) else PLAIN_TCP)
    && (("SSH-" <= line && |line| >= 8) || "220 " <= line || "220-" <= line || "* OK" <= line || "+OK" <= line
        || v == PLAIN_TCP)
  }

  /** Without a command, greetings decide; what they mention may be in capitals or not. */
  lemma {:induction false} GreetingsAreRecognised(data: Bytes)
    requires forall i: nat :: i < |COMMANDS| ==> !StartsLike(FirstProtocolLine(data), COMMANDS[i].0)
    ensures var line := FirstProtocolLine(data);
            Greets(line, CommonProtocolParser(data), Mentions(line, "SMTP") || Mentions(line, "MAIL"),
                   Mentions(line, "FTP") || Mentions(line, "FILEZILLA"), Mentions(line, "IMAP"), Mentions(line, "POP"))
  {
    NoneStartsSo(FirstProtocolLine(data));
    GreetingsDecide(data);
    Words(FirstProtocolLine(data));
  }

  lemma {:induction false} NoneStartsSo(line: string)
    requires forall i: nat :: i < |COMMANDS| ==> !StartsLike(line, COMMANDS[i].0)
    ensures var u := Upper(line);
            !IsSmtpCommand(u) && !IsFtpCommand(u) && !IsImapCommand(u) && !IsPop3Command(u)
  {
    forall i: nat
      ensures !IsCommand(Upper(line), i)
    {
      if i < |COMMANDS| {
        CommandsAreCapital(i);
        StartsLikeIff(line, COMMANDS[i].0);
      }
    }
    NoCommandIff(Upper(line));
  }

  /** The same on the line in capitals. */
  lemma {:induction false} GreetingsDecide(data: Bytes)
    requires var u := Upper(FirstProtocolLine(data));
             !IsSmtpCommand(u) && !IsFtpCommand(u) && !IsImapCommand(u) && !IsPop3Command(u)
    ensures var line, u := FirstProtocolLine(data), Upper(FirstProtocolLine(data));
            Greets(line, CommonProtocolParser(data), Contains(u, "SMTP") || Contains(u, "MAIL"),
                   Contains(u, "FTP") || Contains(u, "FILEZILLA"), Contains(u, "IMAP"), Contains(u, "POP"))
  {
    var line := FirstProtocolLine(data);
    Synonyms(Upper(line));
    OneGreeting(line);
  }

  /** A line starts with one greeting at most. */
  lemma {:induction false} OneGreeting(line: string)
    ensures "SSH-" <= line ==> !IsReady(line) && !("* OK" <= line) && !("+OK" <= line)
    ensures IsReady(line) ==> !("* OK" <= line) && !("+OK" <= line)
    ensures "* OK" <= line ==> !("+OK" <= line)
  {
    assert "SSH-" <= line ==> line[0] == 'S';
    assert IsReady(line) ==> line[0] == '2';
    assert "* OK" <= line ==> line[0] == '*';
    assert "+OK" <= line ==> line[0] == '+';
  }

  lemma {:induction false} Words(line: string)
    ensures var u := Upper(line);
            && (Mentions(line, "SMTP") <==> Contains(u, "SMTP")) && (Mentions(line, "MAIL") <==> Contains(u, "MAIL"))
            && (Mentions(line, "FTP") <==> Contains(u, "FTP"))
            && (Mentions(line, "FILEZILLA") <==> Contains(u, "FILEZILLA"))
            && (Mentions(line, "IMAP") <==> Contains(u, "IMAP")) && (Mentions(line, "POP") <==> Contains(u, "POP"))
  {
    MentionsIff(line, "SMTP");
    MentionsIff(line, "MAIL");
    MentionsIff(line, "FTP");
    MentionsIff(line, "FILEZILLA");
    MentionsIff(line, "IMAP");
    MentionsIff(line, "POP");
  }

  lemma {:induction false} Synonyms(u: string)
    ensures Contains(u, "ESMTP") ==> Contains(u, "SMTP")
    ensures Contains(u, "IMAP4") ==> Contains(u, "IMAP")
    ensures Contains(u, "POP3") ==> Contains(u, "POP")
  {
    Includes(u, "ESMTP", "SMTP", 1);
    Includes(u, "IMAP4", "IMAP", 0);
    Includes(u, "POP3", "POP", 0);
  }

  /** What contains the longer text contains the shorter one in it. */
  lemma {:induction false} Includes(u: string, longer: string, part: string, at: nat)
    requires at + |part| <= |longer| && longer[at..at + |part|] == part
    ensures Contains(u, longer) ==> Contains(u, part)
  {
    if Contains(u, longer) {
      var k :| 0 <= k <= |u| && longer <= u[k..];
      var rest := u[k..];
      assert rest[at..at + |part|] == longer[at..at + |part|];
      assert part <= u[k + at..];
    }
  }

  // ----- the first line

  predicate Blank(s: string) {
    forall c <- s :: IsSpace(c) && c != '\n'
  }

  /** A text without outer white space or line feeds. */
  predicate IsLine(s: string) {
    s != [] && !IsSpace(s[0]) && !IsSpace(s[|s| - 1]) && '\n' !in s
  }

  lemma {:induction false} FirstLineOf(s: string, rest: string)
    requires '\n' !in s && (rest != [] ==> rest[0] == '\n')
    ensures FirstLine(s + rest) == s
    decreases |s|
  {
    if s == [] {
      assert s + rest == rest;
    } else {
      assert s[0] in s && (s + rest)[1..] == s[1..] + rest;
      FirstLineOf(s[1..], rest);
    }
  }

  lemma {:induction false} TrimmedLeft(front: string, s: string)
    requires Blank(front) && (s != [] ==> !IsSpace(s[0]))
    ensures TrimLeft(front + s) == s
    decreases |front|
  {
    if front == [] {
      assert front + s == s;
    } else {
      assert front[0] in front && (front + s)[1..] == front[1..] + s;
      TrimmedLeft(front[1..], s);
    }
  }

  lemma {:induction false} TrimmedRight(s: string, back: string)
    requires Blank(back) && (s != [] ==> !IsSpace(s[|s| - 1]))
    ensures TrimRight(s + back) == s
    decreases |back|
  {
    if back == [] {
      assert s + back == s;
    } else {
      var n := |back| - 1;
      assert back[n] in back && (s + back)[..|s + back| - 1] == s + back[..n];
      TrimmedRight(s, back[..n]);
    }
  }

  /** The first line is what stands before the line feed, or at all, without the white space around it. */
  lemma {:induction false} FirstLineIs(data: Bytes, front: string, line: string, back: string, rest: string)
    requires Text(data) == front + line + back + rest && (rest != [] ==> rest[0] == '\n')
    requires Blank(front) && IsLine(line) && Blank(back)
    ensures FirstProtocolLine(data) == line
  {
    var whole := front + line + back;
    assert '\n' !in whole;
    FirstLineOf(whole, rest);
    assert whole == front + (line + back);
    TrimmedLeft(front, line + back);
    TrimmedRight(line, back);
  }
}
