/** Client-to-server controls message: five button bytes behind a framed
    header. The same encoder and decoder appear three times in the source
    (Game.cpp, Player.cpp, GameObject.cpp); they are one definition here.

    A button byte carries `pressed` in bit 7 and the press count in bits 0-6.
    The fields do not overlap, so the source's `|` is a sum and `& 0x7f` is
    `% 0x80` in this model. */
module Controls {
  import opened Bytes

  /** Message tags. */
  const C2S_Controls: byte := 1
  const S2C_State: byte := 0x73 // 's'

  /** Payload size of a controls message. */
  const ControlsSize: nat := 5

  /** One input button: `downs` counts presses since the last send. */
  datatype Button = Button(downs: byte, pressed: bool)

  const DefaultButton: Button := Button(0, false)

  datatype Controls = Controls(left: Button, right: Button, up: Button, down: Button, jump: Button)

  const DefaultControls: Controls :=
    Controls(DefaultButton, DefaultButton, DefaultButton, DefaultButton, DefaultButton)

  /** Wire order of the buttons. */
  function Buttons(c: Controls): (r: seq<Button>)
    ensures |r| == 5
  {
    [c.left, c.right, c.up, c.down, c.jump]
  }

  /** Protocol errors that the source throws as `std::runtime_error`. */
  datatype ProtocolError =
    | BadControlsSize(size: nat)  // controls header declares a size other than 5
    | RanOut                      // a checked read would pass the declared size
    | TrailingData                // bytes of the declared size left unread
    | ReadPastBuffer              // an unchecked record read leaves the receive buffer

  /** What a decoder leaves behind when it does not throw: whether it read a
      message, the decoded state and the receive buffer. */
  datatype Polled<T> = Polled(read: bool, state: T, buffer: seq<byte>)

  /** A decoder either returns or throws. */
  datatype Result<T> = Ok(value: T) | Throws(error: ProtocolError)

  // ----------------------------------------------------------------- encode

  /** `(pressed ? 0x80 : 0x00) | (downs & 0x7f)` */
  function ButtonByte(b: Button): byte
  {
    (if b.pressed then 0x80 else 0x00) + (b.downs as int) % 0x80
  }

  /** `send_controls_message`: tag, size 5 as three little-endian bytes, then
      left, right, up, down and jump. */
  function SendControls(c: Controls): (r: seq<byte>)
    ensures |r| == HeaderSize + ControlsSize
    ensures r[0] == C2S_Controls && r[1..4] == [5, 0, 0]
    ensures forall i :: 0 <= i < 5 ==> r[HeaderSize + i] == ButtonByte(Buttons(c)[i])
  {
    Frame(C2S_Controls, [ButtonByte(c.left), ButtonByte(c.right), ButtonByte(c.up),
                         ButtonByte(c.down), ButtonByte(c.jump)])
  }

  // ----------------------------------------------------------------- decode

  /** `recv_button`: take `pressed` from bit 7 and add the low 7 bits to
      `downs`, saturating at 255. */
  function MergeButton(prev: Button, wire: byte): (b: Button)
    ensures b.pressed <==> wire >= 0x80
    ensures prev.downs <= b.downs
    ensures b.downs == 255 || b.downs == prev.downs + wire % 0x80
    ensures b.downs == 255 <==> prev.downs + wire % 0x80 >= 255
  {
    var d := prev.downs as int + wire % 0x80;
    Button(if d > 255 then 255 else d, wire >= 0x80)
  }

  /** `recv_controls_message`, in the order the source checks: short buffer
      or other tag is "no message"; a size other than 5 throws even before the
      payload has arrived; an incomplete payload is "no message"; otherwise the
      five buttons are merged and the 9 bytes removed. */
  function RecvControls(c: Controls, buf: seq<byte>): (r: Result<Polled<Controls>>)
  {
    if |buf| < HeaderSize then Ok(Polled(false, c, buf))
    else if buf[0] != C2S_Controls then Ok(Polled(false, c, buf))
    else if DeclaredSize(buf) != ControlsSize then Throws(BadControlsSize(DeclaredSize(buf)))
    else if |buf| < HeaderSize + DeclaredSize(buf) then Ok(Polled(false, c, buf))
    else
      var c' := Controls(MergeButton(c.left, buf[4]), MergeButton(c.right, buf[5]),
                         MergeButton(c.up, buf[6]), MergeButton(c.down, buf[7]),
                         MergeButton(c.jump, buf[8]));
      Ok(Polled(true, c', buf[HeaderSize + DeclaredSize(buf)..]))
  }

  // ------------------------------------------------------------- properties

  /** The controls a successful read produces from `prev` and the five wire
      bytes `w`, button by button. */
  ghost predicate MergedFrom(prev: Controls, w: seq<byte>, c': Controls)
    requires |w| == 5
  {
    forall i :: 0 <= i < 5 ==>
      var b := Buttons(prev)[i];
      var b' := Buttons(c')[i];
      && (b'.pressed <==> w[i] >= 0x80)
      && b'.downs == (if b.downs + w[i] % 0x80 > 255 then 255 else b.downs + w[i] % 0x80)
  }

  /** The documented contract of the decoder: "false" on no message or a
      non-controls message, with controls and buffer untouched; a throw exactly
      when the tag is right and the declared size is not 5; "true" on a
      complete message, which is removed (exactly 9 bytes) with the rest kept in
      order. */
  lemma RecvControlsContract(c: Controls, buf: seq<byte>)
    ensures var r := RecvControls(c, buf);
      && (r.Throws? <==> |buf| >= HeaderSize && buf[0] == C2S_Controls && DeclaredSize(buf) != ControlsSize)
      && (r.Throws? ==> r.error == BadControlsSize(DeclaredSize(buf)))
      && (r.Ok? && !r.value.read ==> r.value.state == c && r.value.buffer == buf)
      && (r.Ok? && r.value.read <==>
            |buf| >= HeaderSize + ControlsSize && buf[0] == C2S_Controls && buf[1..4] == [5, 0, 0])
      && (r.Ok? && r.value.read ==>
            && r.value.buffer == buf[HeaderSize + ControlsSize..]
            && |r.value.buffer| == |buf| - 9
            && MergedFrom(c, buf[4..9], r.value.state))
  {
    if |buf| >= HeaderSize && buf[0] == C2S_Controls {
      assert DeclaredSize(buf) == 5 <==> buf[1..4] == [5, 0, 0];
    }
  }

  /** Bit 7 of a button byte is `pressed` and its low 7 bits are the press
      count modulo 128. */
  lemma ButtonByteFields(b: Button)
    ensures ButtonByte(b) >= 0x80 <==> b.pressed
    ensures ButtonByte(b) % 0x80 == b.downs % 0x80
  {
  }

  /** What the receiver's button should become when `sent` is sent to it:
      the sender's `pressed`, and the sender's press count modulo 128 added to
      the receiver's count, saturating at 255. */
  function Deliver(prev: Button, sent: Button): Button
  {
    var d := prev.downs as int + (sent.downs as int) % 0x80;
    Button(if d > 255 then 255 else d, sent.pressed)
  }

  /** A button survives the wire as `Deliver` describes. */
  lemma ButtonRoundTrip(prev: Button, sent: Button)
    ensures MergeButton(prev, ButtonByte(sent)) == Deliver(prev, sent)
  {
    ButtonByteFields(sent);
  }

  /** Encoding then decoding: every `pressed` flag arrives, every press count
      arrives modulo 128 and is added to the receiver's count with saturation
      at 255, and the bytes after the message are left in order. */
  lemma {:induction false} ControlsRoundTrip(prev: Controls, c: Controls, rest: seq<byte>)
    ensures RecvControls(prev, SendControls(c) + rest) ==
      Ok(Polled(true, Controls(Deliver(prev.left, c.left), Deliver(prev.right, c.right),
                               Deliver(prev.up, c.up), Deliver(prev.down, c.down),
                               Deliver(prev.jump, c.jump)), rest))
  {
    var payload := [ButtonByte(c.left), ButtonByte(c.right), ButtonByte(c.up),
                    ButtonByte(c.down), ButtonByte(c.jump)];
    FrameHeader(C2S_Controls, payload, rest);
    var buf := SendControls(c) + rest;
    assert buf[4..9] == payload;
    assert buf[0] == C2S_Controls && DeclaredSize(buf) == ControlsSize && |buf| >= 9;
    ButtonRoundTrip(prev.left, c.left);
    ButtonRoundTrip(prev.right, c.right);
    ButtonRoundTrip(prev.up, c.up);
    ButtonRoundTrip(prev.down, c.down);
    ButtonRoundTrip(prev.jump, c.jump);
  }

  /** Every press count fits the 7-bit wire field. */
  predicate FitsWire(c: Controls)
  {
    forall i :: 0 <= i < 5 ==> Buttons(c)[i].downs < 0x80
  }

  /** A press count that fits the wire field is delivered unchanged to a
      receiver that has seen no presses. */
  lemma DeliverToFresh(b: Button)
    requires b.downs < 0x80
    ensures Deliver(DefaultButton, b) == b
  {
  }

  /** A fresh receiver gets back exactly what was sent when every press count
      fits the 7-bit field. */
  lemma FreshReceiverRoundTrip(c: Controls, rest: seq<byte>)
    requires FitsWire(c)
    ensures RecvControls(DefaultControls, SendControls(c) + rest) == Ok(Polled(true, c, rest))
  {
    ControlsRoundTrip(DefaultControls, c, rest);
    assert Buttons(c)[0] == c.left && Buttons(c)[1] == c.right && Buttons(c)[2] == c.up;
    assert Buttons(c)[3] == c.down && Buttons(c)[4] == c.jump;
    DeliverToFresh(c.left);
    DeliverToFresh(c.right);
    DeliverToFresh(c.up);
    DeliverToFresh(c.down);
    DeliverToFresh(c.jump);
  }

  /** The press counts that `msgs` carry for button `i`, each as the wire
      carries it, modulo 128. */
  function SentDowns(msgs: seq<Controls>, i: nat): nat
    requires i < 5
    decreases |msgs|
  {
    if |msgs| == 0 then 0 else (Buttons(msgs[0])[i].downs as int) % 0x80 + SentDowns(msgs[1..], i)
  }

  /** However many messages are merged before the server consumes them, each
      press count is the receiver's count plus everything sent for that
      button, saturated at 255; in particular it never decreases. */
  lemma {:induction false} RepeatedReadsSaturate(c: Controls, msgs: seq<Controls>)
    ensures var c' := ReceiveAll(c, msgs);
      forall i :: 0 <= i < 5 ==>
        && Buttons(c)[i].downs <= Buttons(c')[i].downs
        && Buttons(c')[i].downs as int ==
             if Buttons(c)[i].downs as int + SentDowns(msgs, i) > 255 then 255
             else Buttons(c)[i].downs as int + SentDowns(msgs, i)
    decreases |msgs|
  {
    if |msgs| > 0 {
      var m := msgs[0];
      var d := ReadOne(c, m);
      assert ReceiveAll(c, msgs) == ReceiveAll(d, msgs[1..]);
      RepeatedReadsSaturate(d, msgs[1..]);
      forall i | 0 <= i < 5
        ensures SentDowns(msgs, i) == (Buttons(m)[i].downs as int) % 0x80 + SentDowns(msgs[1..], i)
      {
      }
    }
  }

  /** One read of a sent message: each button is delivered onto the
      receiver's. */
  lemma ReadOne(c: Controls, m: Controls) returns (d: Controls)
    ensures RecvControls(c, SendControls(m)) == Ok(Polled(true, d, []))
    ensures forall i :: 0 <= i < 5 ==> Buttons(d)[i] == Deliver(Buttons(c)[i], Buttons(m)[i])
  {
    ControlsRoundTrip(c, m, []);
    assert SendControls(m) + [] == SendControls(m);
    d := Controls(Deliver(c.left, m.left), Deliver(c.right, m.right), Deliver(c.up, m.up),
                  Deliver(c.down, m.down), Deliver(c.jump, m.jump));
  }

  /** Feeds each message, in order, to a receiver that starts at `c`. */
  function ReceiveAll(c: Controls, msgs: seq<Controls>): Controls
    decreases |msgs|
  {
    if |msgs| == 0 then c
    else
      match RecvControls(c, SendControls(msgs[0]))
      case Ok(p) => ReceiveAll(p.state, msgs[1..])
      case Throws(_) => c
  }
}
