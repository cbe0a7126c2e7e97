# A model of the cx HTTP and QUIC protocol code, with proofs

The cx runtime speaks HTTP/1.1, HTTP/3 and the lower parts of QUIC in C. This project models the
code that decides what bytes mean and who owns what, and proves what that code is for:

- **Coding and decoding.** QPACK with its Huffman code and prefix integers, variable-length
  integers, HTTP/3 and QUIC frames, ACK ranges, packet numbers, transport parameters, chunked
  bodies, multipart forms, URLs and query strings. What is written is read back, and, where the
  format is canonical, nothing else is accepted.
- **Exactly what is accepted.** For HTTP/1.1 heads, chunked bodies, QPACK sections, HTTP/3 message,
  control and other unidirectional streams, QUIC frames and transport parameters: which inputs are
  taken, by the grammar or the table of the standard, what is then reported, and for every other
  input the error of the first thing wrong with it.
- **Readers fed in pieces.** The HTTP/3 message reader, the HTTP/3 session, the HTTP/1.1 parser and
  the QUIC stream reassembly work on whatever has arrived. What they make of a stream does not
  depend on how it was cut, or depends on it exactly under a stated condition.
- **End to end.** A request with a body pumped through a socket that refuses at will arrives with
  its fields and its body; so do a response, an HTTP/3 message and a pair of HTTP/3 sessions.
- **Who owns a request.** The race between TCP and QUIC, parking and cancelling, the table of dials
  in progress, and the hand-over between callers and a connection's worker, over every
  interleaving; and over requests and dials together that no wait is stranded
  (`HttpWait`) and who takes the mark of a dial off again (`HttpMark`).
- **The class layout** of the code generator: a class's method slots extend its parent's.

Each file is one module. Modules come in pairs where the source works in place: a specification on
values (`Qpack`, `H3Msg`, `H3Session`, `HttpParse`, `QuicFrame`) with its theorems, and beside it the
classes, loops and buffers of the source (`QpackCoder`, `H3MsgReader`, `H3SessionReader`,
`HttpParser`, `QuicFrameCoder`), whose contracts tie every step to that specification. What is
accepted is said in modules of its own, against definitions that do not mention the reader:
`HttpHead` and `HttpInterim` for the HTTP/1.1 parser, `QpackForms`, `H3Accept`, `H3Control` and
`H3Streams` for HTTP/3, `QuicLayout` and `QuicStated` for QUIC, `HttpDots`, `HttpRfcDots`, `HttpQuery`
and `HttpMultipart` for URLs and forms. `HttpHistory` reads the state of a request off the steps it
has taken. `HttpCut` holds the exact conditions for cutting HTTP/1.1, `HttpWire` and `H3Agree` the
end-to-end results.
`dafny verify dfyconfig.toml` checks everything.

## How the code is modelled

Bytes are integers from 0 to 255, strings and rings are sequences of them, and 32-bit and 64-bit
arithmetic is written out wherever it can wrap: prefix integers, the count of head bytes, the count
of waits, stream offsets. A region of code under one lock, and one atomic operation, is one
indivisible step; runs are all sequences of such steps. Sockets, producers and file sources are
parameters: a socket is any rule for which sends it refuses, a source any bytes and any place at
which it fails.

Where the code and a comment in it disagree, the code is modelled:

- `cxhttp/httpparse.c:356` says that chunked must be the last transfer coding. The code accepts it
  anywhere in the list.
- `cxhttp/httpclient.c:719` says that clearing the pending flag keeps a dial from publishing its
  socket. The code that publishes does not look at the flag.
- `cxhttp/httpclient.c:761` says that a failure ends the request only when nothing is left. It also
  does in the moment between an HTTP/3 connection coming up and its claim.
- `cxhttp/httpconn.c:369` says that a request cannot claim one length and send another. Its own
  Content-Length and Transfer-Encoding go out unchecked, and so does the length that was declared for
  a body stream, which nobody compares with what the stream gives.
- `cxhttp/httpconn.c:516` says that nothing leaves the stream buffer until the socket has accepted it.
  That holds; but what has been accepted does not leave a buffer whose stream broke meanwhile.
- `cxhttp/httpclient.c:1081` says that a mark left behind strands whoever waits for it, and that the
  request that holds the dial retires it. One that is ended before its dial has a socket does not.
- `cxhttp/httpurl.c:354` cites section 5.2.4 of RFC 3986 for removing dot segments. Behind an empty
  segment a dot segment at the end of a path loses a slash that the algorithm there keeps.
- `cxquic/conn_private.h:295` says that a packet number already seen is answered as such. One whose range
  was displaced, or that was left out of a full list, is answered as new.
- `cxquic/reasm.c:6` says that dropping costs a retransmission and nothing else. A stream piece that
  is dropped is answered as accepted.

## What turned out to be conditional

- A line of exactly `maxLineLen` bytes is accepted when it arrives whole and refused when its LF is
  late (`HttpLine.LongestLineIsAtEdge`). `HttpLine.LineIndependenceExact` and
  `HttpCut.FragmentationExact` state exactly when cutting does not matter.
- A body over its limit is refused at the first run that crosses it, so how much of it is reported
  first depends on the cuts. `H3Msg.BodyIndependenceExact` and `HttpCut.BodyExact` state exactly when
  it does not.
- An HTTP/3 message with an empty body is written without a DATA frame, so trailers after it would be
  reported as a second head (`H3Msg.MessageDelivered`). The source writes heads and bodies only; the
  trailers are written by a reference writer of the same form.
- An HTTP/3 endpoint does not check that the GOAWAY ids it sends are such as its peer accepts
  (`H3Agree.SessionsAgree`).
- A query pair without a name is written but not read (`HttpUrl.QueryRoundTrip`).
- Removing dot segments is the algorithm of RFC 3986 but for paths such as `//.`
  (`HttpRfcDots.OneSlashFewer`); `HttpRfcDots.AsRfcExactly` states exactly for which.
- A multipart form reads back as it was sent exactly when no content contains the delimiter
  (`HttpMultipart.FormReadsBack`).
- A socket may be closed twice, or closed and given to a connection
  (`HttpRace.CancelClosesTwice`, `HttpRace.LoserClosesTwice`, `HttpRace.RefusedClosesTwice`).
  `HttpRace.UsedOnceExactly` states exactly when it is not.
- A TCP failure may end a request whose HTTP/3 connection is up (`HttpRace.LandedIsOverlooked`), and
  a hop that has been won may go quiet (`HttpRace.WinnerGoesQuiet`). `HttpRace.EndsEarlyExactly`,
  `HttpRace.NothingGoesQuiet` and `HttpRace.SilentOnceWon` state when.
- A request's own framing fields may speak against its body (`HttpWire.LengthIsBelieved`), and its
  declared length against what its stream gives (`HttpWire.DeclaredIsBelieved`).
  `HttpWire.RequestArrivesExactly` states exactly when it arrives as it was meant.
- A body whose producer failed reads as complete (`HttpPump.FailureLooksComplete`), or hangs
  (`HttpPump.SendHangs`); `HttpPump.SendPulled` states exactly which.
- The mark of a dial may be left behind (`HttpMark.MarkLeftBehind`); `HttpMark.OwnedExactly` states
  exactly when a step leaves it to nobody.
- A received packet number may be taken for new (`QuicAckState.HeardTwice`), and an accepted piece of
  a stream may be dropped (`QuicReasm.NextByteDropped`); `QuicAckState.AckState.Add` and
  `QuicReasm.HeldExactly` state exactly when.
- A truncated packet number is recovered exactly near the one expected
  (`QuicPacketNumber.RecoveredExactly`).

## Model

| member | source | states |
|---|---|---|
| Huffman.DecodeEncode | cxhttp/qpackhuff.c:116-200 | decoding an encoding gives back every byte string |
| Huffman.EncodeDecode | cxhttp/qpackhuff.c:155-200 | the decoder accepts nothing but encodings: an accepted input is byte for byte the encoding of its result |
| Huffman.DecodeExpands | cxhttp/qpackhuff.c:149-200 | no input decodes to more than eight fifths of its length, and no two inputs decode to the same |
| Huffman.MaxDecodedIsEnough | cxhttp/qpackhuff.c:149-152 | the size computed before decoding holds every result |
| Huffman.CodeIsPrefixFree | cxhttp/qpackhuff.c:10-104 | no proper prefix of a symbol's code is a code, and every code fits its length |
| HuffmanTables.SymbolOfCode | cxhttp/qpackhuff.c:10-104 | the encoder's table and the decoder's canonical tables describe one code: looking up the code of each of the 257 symbols finds that symbol |
| HuffmanTables.CodeOfSymbol | cxhttp/qpackhuff.c:10-104 | conversely, whatever the decoder's lookup finds has, in the encoder's table, the code and length it was found under |
| HuffmanTables.CodeIsCanonical | cxhttp/qpackhuff.c:10-104 | of two symbols with codes of one length the lesser has the lesser code, so the 257 lengths determine the whole code |
| Huffman.HuffLen | cxhttp/qpackhuff.c:107-113 | the length it returns is the length of the encoding |
| Huffman.HuffEncode | cxhttp/qpackhuff.c:116-146 | writes exactly the encoding and returns its length, or writes nothing when there is no room; bytes past it are untouched |
| Huffman.DrainBytes | cxhttp/qpackhuff.c:132-135 | moving whole bytes out of the 64-bit accumulator keeps output and accumulator together equal to the code bits so far |
| Huffman.HuffDecode | cxhttp/qpackhuff.c:155-200 | fails exactly when the input is not an encoding or its result does not fit, and otherwise writes that result |
| PrefixInt.RoundTrip | cxhttp/qpack.c:286-339 | every integer up to 2^62-1 read back gives its value, the flags and the rest of the input |
| PrefixInt.ValueExactly | cxhttp/qpack.c:306-339 | which bytes are which integer: the prefix alone up to its limit, and past it the seven-bit digits after it, least significant first |
| PrefixInt.WriteInt | cxhttp/qpack.c:286-302 | writes the prefix and the base-128 digits, or sets the flag if they do not fit |
| PrefixInt.WriteDigits | cxhttp/qpack.c:297-301 | the digit loop writes exactly the base-128 digits, least significant first |
| PrefixInt.ReadInt | cxhttp/qpack.c:306-339 | reads with 64-bit arithmetic; what comes back is the exact mathematical value, at most 2^62-1, or a failure, never a value that wrapped |
| PrefixInt.AddDigit | cxhttp/qpack.c:317-337 | no shift or addition of the digit loop wraps at 64 bits |
| Qpack.SectionRoundTrip | cxhttp/qpack.c:472-641 | decoding an encoded section returns the same fields with their names lowercased, for every list of valid fields within the limits |
| Qpack.SectionIsValid | cxhttp/qpack.c:542-641 | whatever the decoder accepts, whoever encoded it, meets both limits and holds only valid names and values |
| Qpack.EncodedBound | cxhttp/qpack.c:474-486 | the bound the encoder computes for its output is never exceeded |
| Qpack.LineRoundTrip | cxhttp/qpack.c:500-625 | the line a field is written as, of whichever of the three kinds, reads back as its lowercased name and its value |
| Qpack.StrRoundTrip | cxhttp/qpack.c:343-398 | a literal, Huffman coded or not, reads back as itself when it is within the limit |
| QpackForms.SectionExactly | cxhttp/qpack.c:542-641 | a section of any field lines in any form an encoder may choose (static index, static name with either kind of literal, two literals, the never-index bit set or not): if no line is wrong the fields are what the lines say, in order |
| QpackForms.SectionRefused | cxhttp/qpack.c:542-641 | otherwise it is refused for its first wrong line, with the fields before it: as undecodable for a reference to the dynamic table or past the static one, a post-base line or a literal over the limit; as malformed for an invalid name or value, or one field or byte too many |
| QpackForms.PrefixExactly | cxhttp/qpack.c:551-563 | whatever two integers a section begins with, its lines are read if and only if the first is zero and the second is not negative |
| QpackForms.NameExactly | cxhttp/qpack.c:408-438 | a valid name is a token without capitals, after a colon or not |
| QpackForms.ValueExactly | cxhttp/qpack.c:443-469 | a valid value is one that trimming leaves alone and that has no NUL, CR or LF |
| QpackForms.ShorterIsChosen | cxhttp/qpack.c:343-359 | a literal is never longer than either of its two forms |
| QpackStatic.Find | cxhttp/qpack.c:261-268 | finds the first static entry with this name and value, or none when there is none |
| QpackStatic.FindName | cxhttp/qpack.c:248-258 | finds the first static entry with this name, or none when there is none |
| QpackCoder.WriteStr | cxhttp/qpack.c:343-359 | writes the shorter of the plain and the Huffman form |
| QpackCoder.ReadStr | cxhttp/qpack.c:363-398 | accepts exactly the literals that decode within the limit, and moves past exactly those bytes |
| QpackCoder.IsValidFieldName | cxhttp/qpack.c:408-438 | the scan agrees with the rule for names on every string |
| QpackCoder.IsValidFieldValue | cxhttp/qpack.c:443-469 | the scan agrees with the rule for values on every string |
| QpackCoder.WriteField | cxhttp/qpack.c:501-530 | one field becomes an indexed, name-referenced or literal line |
| QpackCoder.Measure | cxhttp/qpack.c:479-486 | the room set aside, as a sum over the fields, and a length that no name or value exceeds |
| QpackCoder.QpackEncode | cxhttp/qpack.c:472-539 | always succeeds: no write runs past the room computed beforehand, and what it appends is the encoded section |
| QpackCoder.ReadLine | cxhttp/qpack.c:573-618 | reads one line of any representation, or refuses it |
| QpackCoder.QpackDecode | cxhttp/qpack.c:542-641 | answers 0 and the fields exactly when the section decodes within the limits, and otherwise the error code the failure calls for and the fields read before it |
| Varint.RoundTrip | cxhttp/http3wire.c:43-142 | an integer read back from its shortest encoding, whatever follows it, is itself |
| Varint.ValueExactly | cxhttp/http3wire.c:43-63 | which bytes are which integer: length by the top two bits, value by all the others, most significant first; and exactly when there are too few |
| Varint.DecodedFits | cxhttp/http3wire.c:43-124 | whatever is read can be written again, in no more bytes than it was read from |
| Varint.DecodeExtends | cxhttp/http3wire.c:43-63 | bytes after a complete integer do not change how it reads |
| Cursor.Reader.GetVarint | cxhttp/http3wire.c:43-63 | reads the integer at the front or sets the flag, which then stays set |
| Cursor.Reader.Take | cxhttp/http3wire.c:24-33 | takes exactly the next bytes or sets the flag and takes none |
| Cursor.Writer.PutVarint | cxhttp/http3wire.c:127-142 | writes the shortest encoding whole, or nothing and sets the flag |
| Cursor.Writer.PutBytes | cxhttp/http3wire.c:101-110 | writes the bytes whole, or nothing and sets the flag |
| BufRing.Ring.PeekVarint | cxhttp/http3wire.c:170-187 | peeks the integer at an offset without consuming it, or answers that it is not all there |
| H3Frame.HeaderRoundTrip | cxhttp/http3wire.c:159-166 | a frame header written is read back as its type and length, with the payload next |
| H3Frame.Reader.Step | cxhttp/http3wire.c:202-242 | one step of the frame reader: header, payload run, completion or want of bytes, and what it leaves in the ring |
| H3Frame.Reader.Fail | cxhttp/http3wire.c:196-199 | poisons the reader and nothing else |
| Cursor.Reader.Get8 | cxhttp/http3wire.c:36-40 | reads one byte or sets the flag |
| Cursor.Writer.Put8 | cxhttp/http3wire.c:91-98 | writes one byte or sets the flag |
| H3Msg.FragmentationIndependence | cxhttp/http3msg.c:110-193 | every way of cutting a stream into reads gives the same field sections and the same failure; the same body and state unless the body limit is crossed, when the pieces report at least as much |
| H3Msg.BodyIndependenceExact | cxhttp/http3msg.c:158-166 | the body is the same however the stream is cut if and only if one read of it stays within the limit or reports exactly the limit before it is refused |
| H3Msg.ReportsAreOrdered | cxhttp/http3msg.c:75-193 | over any run and any cutting, reports are one or more heads, then body, then at most one set of trailers |
| H3Msg.MessageDelivered | cxhttp/http3msg.c:110-600 | a head and body as an endpoint writes them, and trailers written the same way, delivered in any pieces, are reported as head, body and trailers with nothing left over |
| H3Msg.PoisonedStays | cxhttp/http3msg.c:48-53 | a failure is final: whatever arrives afterwards is neither read nor reported |
| H3Accept.FramesExactly | cxhttp/http3msg.c:75-193 | a stream of any frames, in any fragments: no error if and only if no frame is at fault, and then a report for each field section, head or trailers by where it stands, and the body; with a fault, the error the first faulty frame calls for after exactly the reports of those before it |
| H3Accept.StrangersIgnored | cxhttp/http3msg.c:75-108 | a frame of a type neither named nor reserved, put in anywhere, changes neither the verdict nor the reports nor the body |
| H3MsgReader.NextDrives | cxhttp/http3msg.c:110-193 | driving the reader one report at a time is driving it one pass at a time |
| H3MsgReader.MsgReader.FieldsReserve | cxhttp/http3msg.c:58-72 | the section buffer grows by doubling, keeps what arrived, and never exceeds the declared length or the larger of 8192 and twice the bytes received |
| H3MsgReader.MsgReader.FieldsRead | cxhttp/http3msg.c:150-156 | a run of the section goes into the buffer after what is there, within the same bounds |
| H3MsgReader.MsgReader.Pass | cxhttp/http3msg.c:110-193 | one pass of the loop does what one step of the specification does, and leaves body bytes in the ring for the caller |
| H3MsgReader.MsgReader.MsgStep | cxhttp/http3msg.c:110-193 | reads on to the first report; terminates by bytes left and frame state |
| H3MsgReader.MsgReader.OnHeaderFrame | cxhttp/http3msg.c:122-144 | a frame header: refused out of place or too large for a section, else begins a section, body, or a payload to skip |
| H3MsgReader.MsgReader.OnPayloadRun | cxhttp/http3msg.c:146-166 | a run of payload: into the section, skipped, or reported as body within its limit |
| H3MsgReader.MsgReader.OnFieldsComplete | cxhttp/http3msg.c:168-190 | a complete section: decoded and reported as a head or as trailers, or the decoder's error |
| H3MsgReader.MsgReader.MsgFail | cxhttp/http3msg.c:48-53 | records the error and poisons the frame reader |
| H3Session.FragmentationIndependence | cxhttp/http3session.c:405-450 | a unidirectional stream read in any pieces leaves the session, the stream and the verdict exactly as the same bytes read at once |
| H3Session.SaidStaysSaid | cxhttp/http3session.c:133-342 | whatever arrives on whatever streams in whatever pieces: SETTINGS is taken once and before anything else, the GOAWAY id never rises, the push limit never falls, and a stream once gone away stays so |
| H3Session.SaidFromTheStart | cxhttp/http3session.c:19-39 | and so between any two moments of any session from its start |
| H3Session.DriveSplits | cxhttp/http3session.c:291-342 | stopping after any part of the input and resuming later changes nothing at all |
| H3Agree.SessionsAgree | cxhttp/http3session.c:48-213 | one side's preamble and the GOAWAYs it lets itself send, delivered in any fragments, are accepted by the other if and only if the ids are such as its peer may name (the sender does not check that); and then the settings and the last id recorded equal those sent |
| H3Agree.GoawaysExactly | cxhttp/http3session.c:90-110 | an endpoint lets itself send exactly the GOAWAY ids that have an encoding and never rise |
| H3Agree.SettingsRead | cxhttp/http3session.c:133-189 | the settings payload written is taken setting by setting without error |
| H3SessionReader.PeerSession.ParseSettings | cxhttp/http3session.c:133-189 | the loop takes the settings in order, refuses reserved and repeated ones, and records that SETTINGS arrived only if all were taken |
| H3SessionReader.PeerSession.TakeOnlyVarint | cxhttp/http3session.c:191-200 | the payload as one integer, if it is exactly that |
| H3SessionReader.PeerSession.ParseGoaway | cxhttp/http3session.c:191-213 | takes a GOAWAY id that is a single varint, names a request stream when from a server, and does not rise |
| H3SessionReader.PeerSession.ControlFrame | cxhttp/http3session.c:261-289 | dispatches a complete control frame; a push limit may not be lowered |
| H3SessionReader.PeerSession.ClassifyUni | cxhttp/http3session.c:349-384 | each critical stream may be opened once |
| H3SessionReader.UniStream.BeginFrame | cxhttp/http3session.c:302-318 | SETTINGS must come first; forbidden frames are refused on their header; what is kept is bounded |
| H3SessionReader.UniStream.RunControl | cxhttp/http3session.c:291-342 | the loop reads control frames until bytes run out or one is refused |
| H3SessionReader.UniStream.RunQpackEncoder | cxhttp/http3session.c:390-402 | accepts nothing but capacity-zero instructions |
| H3SessionReader.UniStream.UniRecv | cxhttp/http3session.c:405-450 | classifies the stream once its type is in and reads on accordingly |
| H3Streams.StreamsExactly | cxhttp/http3session.c:291-450 | whatever a peer sends on its unidirectional streams, however cut and interleaved: the connection goes on if and only if no stream carries what it may not, none is a push stream and no critical stream is opened twice; while it does, every stream and the session stand where what has arrived puts them; and the next arrival ends it with exactly the error it calls for |
| H3Streams.EncoderReads | cxhttp/http3session.c:390-402 | the encoder stream goes on exactly while every byte is a capacity of zero |
| H3Streams.Discards | cxhttp/http3session.c:405-450 | what comes on a decoder stream, or on one of a type nobody has named, is thrown away |
| H3Control.ControlExactly | cxhttp/http3session.c:133-342 | a control stream of any frames, in any fragments: taken if and only if no frame is at fault, and then the session records what they said and nothing else; otherwise the error is that of the first at fault |
| H3Control.SettingsExactly | cxhttp/http3session.c:133-189 | a SETTINGS payload is taken if and only if it is whole pairs, none reserved, out of bounds or, if known, repeated; what is recorded is what it says |
| H3Control.GivenUpExactly | cxhttp/http3session.c:470-473 | a stream counts as given up if and only if some GOAWAY has named it or one before it |
| HttpLine.LineIndependenceExact | cxhttp/httpparse.c:129-186 | a line reads the same however it arrives if and only if it is not decided by byte maxLineLen + 2 |
| HttpLine.LongestLineIsAtEdge | cxhttp/httpparse.c:134-175 | a line of exactly maxLineLen bytes is accepted when it arrives whole and refused when its LF is late |
| HttpLine.LineReads | cxhttp/httpparse.c:129-186 | a line within the limit followed by CR LF reads as itself |
| HttpLine.PeekLine | cxhttp/httpparse.c:129-186 | the scan loop finds the line, asks for more, or refuses, exactly as specified |
| HttpParse.StepConsumes | cxhttp/httpparse.c:524-672 | the inner loop terminates: each silent step consumes bytes or leaves the Interim state |
| HttpParse.FragmentationIndependence | cxhttp/httpparse.c:524-672 | every cutting of a stream reports the same interim and final heads and ends the same way, if no line is decided by byte maxLineLen + 2; and the same body and state unless the body limit is crossed |
| HttpCut.FragmentationExact | cxhttp/httpparse.c:129-672 | every cutting of a stream agrees with one read of it (same heads, same end, same body up to its limit) if and only if none of the lines met in that read, as its bytes stand, is decided by byte maxLineLen + 2 |
| HttpCut.BodyExact | cxhttp/httpparse.c:471-486 | and then the body is the same for every cutting if and only if one read of it stays within the limit or reports exactly the limit before it is refused |
| HttpParse.DriveSplits | cxhttp/httpparse.c:524-672 | stopping after any part of the input and resuming when the rest has arrived changes nothing, under the same condition |
| HttpParse.EndedStays | cxhttp/httpparse.c:655-661 | a message that has ended, well or badly, stays ended and leaves what follows unread |
| HttpHead.HeadExactly | cxhttp/httpparse.c:211-462 | any block of lines of a head, wherever one may begin, each ended by CR LF or a bare LF: if no line is at fault the caller is told, before anything else, exactly what the lines say and how the body is delimited, and reading goes on behind the blank line |
| HttpHead.HeadRefused | cxhttp/httpparse.c:211-462 | otherwise nothing is told and the error is that of the first line at fault: over the head budget or the count of fields, not a start line or a field, or fields that leave the length of the body in doubt |
| HttpHead.RequestLineExactly | cxhttp/httpparse.c:284-314 | a request line is taken if and only if it is a token, a target and a known version with one space between each two |
| HttpHead.StatusLineExactly | cxhttp/httpparse.c:248-281 | a status line is taken if and only if it is a known version, a number from 100 to 999 and, or not, a reason |
| HttpHead.FieldExactly | cxhttp/httpparse.c:421-462 | a field line is a token, a colon and the value, trimmed; anything else is none |
| HttpHead.FinishExactly | cxhttp/httpparse.c:323-418 | the blank line: refused if and only if the fields leave the length in doubt or it is one interim response too many; otherwise the framing, the announced length and the next state are what the fields say |
| HttpHead.CodingExactly | cxhttp/httpparse.c:355-367 | the transfer coding is chunked if and only if some item between commas of some such field is that word, white space and case aside |
| HttpHead.LineExactly | cxhttp/httpparse.c:129-186 | a line is read, refused or waited for according to its first CR or LF within the window |
| HttpHead.LeadingZero | cxhttp/httpparse.c:369-386 | leading zeros do not change a number, in any base and however many |
| HttpFraming.ShortLinesIndependence | cxhttp/httpparse.c:129-186 | a stream whose lines, where the parser meets them, end within the limit parses the same however it is cut, whatever its body holds |
| HttpClean.ReportedIsClean | cxhttp/httpparse.c:248-462 | every head reported, of any stream in any pieces, has tokens for field names, values without line ends or outer space, and for a request a token method and a target without space or line end |
| HttpLine.EdgeIs | cxhttp/httpparse.c:129-186 | a line is decided by its last permitted byte exactly when its first maxLineLen bytes hold no CR or LF, the next is no LF, and that is a CR or an LF comes after it |
| HttpFraming.CompleteMeansComplete | cxhttp/httpparse.c:323-707 | however a message arrives: at most maxInterim interim heads, then one head, then body within its limit; a message that completes carried exactly the bytes announced, or was chunked; a close completes exactly a body that runs to it or a message already complete, and otherwise ends it as closed |
| HttpParser.NextDrives | cxhttp/httpparse.c:667-672 | driving the parser one report at a time is driving it one step at a time |
| HttpParser.MessageParser.Reject | cxhttp/httpparse.c:104-109 | fails the parser with this error |
| HttpParser.MessageParser.LineOnce | cxhttp/httpparse.c:536-651 | a step in a state that reads lines: head budget, the line or its problem, then what the line means |
| HttpParser.MessageParser.TakeLine | cxhttp/httpparse.c:129-186 | consumes a complete line and counts it, 32 bits wide, or leaves the ring alone |
| HttpParser.MessageParser.ParseStatusLine | cxhttp/httpparse.c:248-281 | status line: version, three-digit status, optional reason, or rejection |
| HttpParser.MessageParser.ParseRequestLine | cxhttp/httpparse.c:284-314 | request line: method token, target, version, or rejection |
| HttpParser.MessageParser.AgreeOnLength | cxhttp/httpparse.c:371-386 | the loop accepts repeated Content-Length values exactly when all agree |
| HttpParser.MessageParser.Frame | cxhttp/httpparse.c:391-418 | chooses how the body is delimited: none, chunked, counted, or running to the close |
| HttpParser.MessageParser.EndHead | cxhttp/httpparse.c:323-418 | the end of the head: conflicts refused, interim responses counted, framing chosen |
| HttpParser.MessageParser.ParseHeaderLine | cxhttp/httpparse.c:421-462 | one field line or the blank line |
| HttpParser.MessageParser.ParseChunkSize | cxhttp/httpparse.c:490-516 | a chunk size, extensions dropped, within its limit |
| HttpParser.MessageParser.EmitBody | cxhttp/httpparse.c:471-486 | claims the body bytes at the front of the ring, within the body limit, and counts the framing down |
| HttpParser.MessageParser.StepOnce | cxhttp/httpparse.c:524-664 | one unit of work in every state |
| HttpParser.MessageParser.ParserStep | cxhttp/httpparse.c:667-672 | steps until there is something to report, and terminates |
| HttpParser.MessageParser.ParserEOF | cxhttp/httpparse.c:675-695 | a close completes a close-delimited body and truncates anything else |
| HttpChunk.ChunkedExact | cxhttp/httpparse.c:490-651 | the chunked decoder accepts exactly the chunked coding, extensions and trailers included: a run completes if and only if the input begins with a coding within the limits, and then the body is what was coded and what follows is left alone |
| HttpChunk.CompletedWasCoded | cxhttp/httpparse.c:490-651 | the bytes read by a completed run are a coding of exactly the body reported |
| HttpChunk.CodedDecodes | cxhttp/httpparse.c:490-651 | everything the coding permits, within the limits, is decoded |
| HttpChunk.NotBeforeTheEnd | cxhttp/httpparse.c:490-651 | with any byte of a coding still to come the decoder waits, neither completed nor failed |
| HttpChunk.ChunkRefused | cxhttp/httpparse.c:490-622 | a line that is no size and a chunk that does not end where it should are refused as malformed, a chunk over the limit as too large |
| HttpChunk.WrittenBodyArrives | cxhttp/httpchunk.c:12-38 | a body written in any pieces and delivered in any others arrives whole, completes exactly at its terminator, and leaves what follows unread |
| HttpChunk.ChunksAppend | cxhttp/httpchunk.c:12-29 | each piece adds one chunk: its size in hexadecimal, the data and two line ends |
| HttpText.ParseFormatHex | cxhttp/httpchunk.c:20-25 | a size written in hexadecimal reads back as itself |
| HttpPump.BodyPump.Feed | cx/serialize/streambuf.c:870-875 | a pull producer fills the buffer to what is wanted, or ends, or fails inside the pull and hands over what it had gathered; nothing produced is lost or reordered |
| HttpPump.BodyPump.Hand | cx/serialize/streambuf.c:854-868 | the next bytes of the producer go to the end of the buffer |
| HttpPump.BodyPump.BodySend | cxhttp/httpconn.c:481-513 | a slice is offered unless one was refused; what was accepted is on the wire once, framed, and counted |
| HttpPump.BodyPump.Walk | cxhttp/httpconn.c:535-540 | offering the ring's segments keeps accepted bytes and the rest of the buffer together equal to what was produced |
| HttpPump.BodyPump.CSend | cx/serialize/streambuf.c:993-1022 | one pass over the buffer loses, repeats and reorders nothing, whatever the socket refuses; a stream that breaks on the way has its buffer offered all the same, one that was broken before does not |
| HttpPump.BodyPump.Skip | cx/serialize/streambuf.c:955-975 | what was accepted leaves the buffer, unless the stream is broken by then: then it stays |
| HttpPump.BodyPump.Turn | cxhttp/httpconn.c:522-552 | one turn of the loop: a pass, the bytes sent dropped, and whether to go on |
| HttpPump.BodyPump.SendAll | cxhttp/httpconn.c:522-552 | the loop ends, by refusal or with nothing to send; a smooth run hands over all the producer had to give |
| HttpPump.BodyPump.Terminate | cxhttp/httpconn.c:566-574 | the terminator goes out once, and is retried until it does |
| HttpPump.BodyPump.PumpBodyStream | cxhttp/httpconn.c:518-581 | under any refusals and any breaks the wire holds exactly the chunks of what was accepted; with nothing refused and the producer done the body is ended if and only if the stream did not break with bytes in its buffer; one that did hangs, and pumping again changes nothing |
| HttpPump.SentBodyArrives | cxhttp/httpconn.c:481-581 | what a finished pump put on the wire, delivered in any pieces, is the body its producer produced, and what follows is left unread |
| HttpPump.FailureLooksComplete | cxhttp/httpconn.c:555-574 | a finished chunked body always reads as complete, and is all there was to send if and only if the producer did not fail with bytes left |
| HttpPump.SendFailed | cxhttp/httpconn.c:518-574 | a producer that fails before its first byte sends an empty body, terminator and all |
| HttpPump.SendPulled | cxhttp/httpconn.c:518-581 | for a pull producer that fails after any number of bytes, or never, and a socket that refuses nothing: all it handed over goes out, and the body is ended if and only if it did not fail or that number is a multiple of 8192 |
| HttpPump.SendHangs | cxhttp/httpform.c:306-373 | the run that hangs: one byte and a failure inside the pull; the byte is on the wire and still in the buffer |
| HttpPump.UnfinishedBodyWaits | cxhttp/httpconn.c:481-581 | until the pump has finished, a reader of what it has sent so far goes on waiting |
| HttpWire.RequestArrives | cxhttp/httpconn.c:372-419 | a request that can be written, whose own fields agree with its framing and whose body is as long as declared, framed in any of the three ways and delivered in any fragments, is reported with its method, its target and every field it was written with; the body arrives whole and what follows is unread |
| HttpWire.RequestArrivesExactly | cxhttp/httpconn.c:372-581 | whatever its stream gives, it arrives so however it is delivered if and only if its method, target and fields can stand on their lines, its own framing fields do not speak against its body (none but a Content-Length of 0 without a body, none but the same Content-Length with a counted one, no Content-Length with a chunked one), and a counted body is as long as was declared |
| HttpWire.DeclaredIsBelieved | cxhttp/httprequest.c:279-296 | the declared length is believed: what follows a stream that falls short is taken to make the body up, and what a stream gives beyond it is left as what follows |
| HttpWire.WrongLengthAtOnce | cxhttp/httpconn.c:407-415 | a request whose stream gives more or less than was declared does not arrive, whatever follows it |
| HttpWire.LengthIsBelieved | cxhttp/httpconn.c:400-415 | a request without a body that carries its own Content-Length has that much of what follows taken for its body |
| HttpWire.AgreeingMeans | cxhttp/httpconn.c:400-415 | the request's own framing fields agree with its body exactly when the server reads off all the fields the framing the body is sent with |
| HttpWire.PumpedRequestArrives | cxhttp/httpconn.c:372-581 | with the body sent by a pump that has finished, chunked or counted: it arrives however it is delivered if and only if the request can be written, its own framing fields agree, and a counted body came to the declared length |
| HttpWire.ResponseArrives | cxhttp/httpparse.c:248-462 | a response reaches the client with its status, reason and fields, its body whole; one that may have no body has none whatever its head announced |
| HttpWire.RequestLineReads | cxhttp/httpparse.c:284-314 | a request line reads back as its method and target |
| HttpWire.StatusLineReads | cxhttp/httpparse.c:248-281 | a status line reads back as its status and reason |
| HttpWire.FieldLineReads | cxhttp/httpparse.c:421-462 | a field line reads back as its name and value |
| HttpWire.HeadFinishes | cxhttp/httpparse.c:323-418 | for any fields of a request: refused, or framed as those fields have it |
| HttpWire.ResponseFinishes | cxhttp/httpparse.c:323-418 | and for responses: counted, chunked, running to the close, or none |
| HttpInterim.AllArrive | cxhttp/httpparse.c:323-664 | interim responses, as many as are permitted, and then a response, in any fragments: the client is told of each with its own status, reason and fields and of nothing else, then of the response with its own; the body arrives whole and what follows is left unread |
| HttpInterim.CloseDelimits | cxhttp/httpparse.c:391-418 | a response whose head says nothing of a length: all that arrives is its body, it is not complete before the close, and the close completes it |
| HttpInterim.TooManyRefused | cxhttp/httpparse.c:342-353 | one interim response too many is refused as too large and is not told |
| HttpRace.OneWinner | cxhttp/httpclient.c:705-759 | over every interleaving within a hop that races, the claims that succeed are all for one transport |
| HttpRace.WinnerKeepsWinning | cxhttp/httpclient.c:740-745 | after its first success each further claim by the winner succeeds |
| HttpRace.EndsOnce | cxhttp/httpclient.c:319-393 | over every interleaving, accepted sends equal terminal callbacks run, callbacks owed, and one more exactly while a client is bound |
| HttpRace.ToldExactly | cxhttp/httpclient.c:319-393 | over every interleaving what the application is told, and in what order, is read off the steps alone: each accepted send is answered by the next end, as aborted if a cancel came in between and it was not a success, and otherwise as that end has it |
| HttpRace.EndsAs | cxhttp/httpclient.c:319-349 | the end of an exchange reports what ended it, unless it is a failure and there was a cancel since the send |
| HttpRace.CancelHonoured | cxhttp/httprequest.c:312-382 | after a cancel that answered true the exchange ends as aborted or, having beaten it, as a success |
| HttpRace.SocketsAccounted | cxhttp/httpclient.c:705-821 | over every interleaving a socket is closed or handed to a connection as often as dials produced it, less what the request still holds or has let go of, and once more for every step that goes astray with it |
| HttpRace.UsedOnceExactly | cxhttp/httpclient.c:705-905 | a socket produced once, and neither kept nor merely let go of, has been closed or handed over; exactly once if and only if no cancel found it being dialled, no claim was made with it after the other transport had won, no peer lacked HTTP/3, and it was not handed over after it had been taken away |
| HttpRace.CancelClosesTwice | cxhttp/httprequest.c:336-376 | a cancel closes the socket being dialled and leaves it with the request: the failure that follows closes it again, or a connection is given a closed socket |
| HttpRace.LoserClosesTwice | cxhttp/httpclient.c:746-857 | a TCP socket that comes up after QUIC has won is closed by the winner and again by itself |
| HttpRace.RefusedClosesTwice | cxhttp/httpclient.c:1119-1129 | a QUIC socket whose peer lacks HTTP/3 is closed where that is found and again by the failure it is reported as |
| HttpRace.NothingGoesQuiet | cxhttp/httpclient.c:767-797 | a racing hop, with a connection that is up but has not claimed counted as coming, never loses the last thing that may bring it a transport without a failure that answers it was the last, so long as nobody has won |
| HttpRace.SilentOnceWon | cxhttp/httpclient.c:785-786 | once a claim has won the hop no failure ever again answers that it was the last |
| HttpRace.WinnerGoesQuiet | cxhttp/httpclient.c:740-745 | so a request whose pooled connection proved dead, and whose own dial then fails, is left with nothing coming and nobody told |
| HttpRace.LastIsLast | cxhttp/httpclient.c:767-797 | over every run: a failure that answers that it was the last leaves something coming if and only if an HTTP/3 connection is up that has not yet claimed |
| HttpRace.EndsEarlyExactly | cxhttp/httpclient.c:761-797 | in a hop with a QUIC dial of its own, a TCP failure ends the request with a transport still coming if and only if that dial has landed and neither transport has claimed |
| HttpRace.LandedIsOverlooked | cxhttp/httpclient.c:1131-1149 | the run that shows it: QUIC lands, TCP fails before QUIC claims, and the request ends with a network error while its HTTP/3 connection is up |
| HttpRace.StaleTokenIgnored | cxhttp/httpclient.c:1022-1066 | once a wait is over, an answer meant for it changes nothing, until the 32-bit count of waits has come all the way round |
| HttpHistory.WaitingExactly | cxhttp/httpclient.c:1266-1440 | over every run: a request waits only if it began to and no new hop, dial of its own, end or failure has come since; and then certainly, unless somebody has answered or it was cancelled |
| HttpHistory.SockComingExactly | cxhttp/httpclient.c:1425-1520 | a TCP dial counts as coming only if it was announced and nothing has settled it since; and then certainly, unless QUIC has claimed or a failure was reported |
| HttpHistory.QuicComingExactly | cxhttp/httpclient.c:1286-1310 | and so for QUIC |
| HttpHistory.ConnExactly | cxhttp/httpclient.c:860-890 | a request is on a connection from when it takes one until it is recycled, whatever else happens |
| HttpHistory.RacingExactly | cxhttp/httpclient.c:1425-1450 | a hop races if it was started so and has not been called off |
| HttpHistory.CancelEndsWaitExactly | cxhttp/httprequest.c:312-382 | a cancel while TCP is on its way and before any connection ends the wait for good, whatever is answered to it later; any other cancel leaves it |
| HttpHistory.AnsweredOnce | cxhttp/httpclient.c:990-1034 | while a hop does not race its wait is answered at most once |
| HttpHistory.RacingIsNotRestarted | cxhttp/httpclient.c:1022-1034 | a request that races is never restarted because the dial it waits for failed |
| HttpRace.Request.RaceClaim | cxhttp/httpclient.c:705-759 | the claim region, with the loser's socket and whether a QUIC dial was closed |
| HttpRace.Request.RaceFailed | cxhttp/httpclient.c:767-797 | the failure region, with the dead socket and whether it was the last |
| HttpRace.Request.UnparkToRestart | cxhttp/httpclient.c:1022-1034 | takes a request out of the wait the token names, if it is in it and not racing |
| HttpRace.Request.BeginPark | cxhttp/httpclient.c:1266-1274 | enters a wait under a fresh token that is never zero |
| HttpRace.Request.TryCancel | cxhttp/httprequest.c:312-382 | the cancel region: what it claims, the wait it gives up only while a TCP half is live, and the sockets its caller closes |
| HttpRace.Request.FinishExchange | cxhttp/httpclient.c:319-349 | the finish region: whether anything was running, the error reported, and the sockets left to close |
| HttpDial.InvAlways | cxhttp/httpclient.c:206-256 | over every run no origin is being dialled twice and every waiter's origin is being dialled |
| HttpDial.WaitsAndDialsBalance | cxhttp/httpclient.c:206-256 | over every run a wait entered is still waiting or was handed out, exactly as often as it was entered; dials granted for an origin have all ended but the one under way |
| HttpDial.DoneReleasesAll | cxhttp/httpclient.c:234-256 | ending a dial hands out all who waited for it and nobody else, and leaves the next request free to dial |
| HttpDial.LatestFirst | cxhttp/httpclient.c:234-256 | they are handed out latest first |
| HttpDial.DialTable.DialClaim | cxhttp/httpclient.c:206-229 | grants the dial or adds a waiter, keeping the three arrays parallel |
| HttpDial.DialTable.ClearClaim | cxhttp/httpclient.c:241-244 | the backward loop removes the origin's claim and nothing else |
| HttpDial.DialTable.RemoveAt | cxhttp/httpclient.c:247-253 | takes one waiter out of the three parallel arrays |
| HttpDial.DialTable.DialDone | cxhttp/httpclient.c:234-256 | the backward loop hands out the origin's waiters, latest first, with their tokens, and keeps the others in order |
| HttpConn.OneRequestAtATime | cxhttp/httpconn.c:679-847 | over every interleaving of callers and worker at most one request is pending or bound, a call answered no has heard nothing, and a call answered yes was told of its end once or is still in exactly one place |
| HttpConn.AnswersStand | cxhttp/httpconn.c:679-847 | answers do not change, nothing reaches a call answered no, and nothing follows the terminal event |
| HttpConn.StepKeepsInv | cxhttp/httpconn.c:679-847 | every step of caller or worker keeps the ownership of the busy flag: it is up while some call owns the connection, and no two do |
| HttpConn.DeadServesNobody | cxhttp/httpconn.c:679-770 | once a connection is over, nothing is ever read into a request that was not bound to it before, whatever callers and worker do |
| HttpConn.YesWasHeard | cxhttp/httpconn.c:738-756 | nobody is told yes on the strength of a request that no worker was summoned for |
| HttpConn.ServesInTurn | cxhttp/httpconn.c:679-847 | a free connection serves any number of requests one after the other, from whichever threads, says yes to each and tells each of its end once, and is free again |
| HttpWait.NobodyStranded | cxhttp/httpclient.c:1039-1316 | over every interleaving of requests and the table of dials: a request in a wait is about to ask, has been granted the dial, is on the list of a marked origin, or has been taken off it to be answered; or the answer has come too late for it, or it was started on the connection with its race won by QUIC before |
| HttpWait.WaitsBalance | cxhttp/httpclient.c:206-1066 | over every run a wait has been answered as often as it was entered, less the times it is still in somebody's hand: none is answered twice and none is lost |
| HttpWait.AnswerEndsWait | cxhttp/httpclient.c:990-1034 | a connection starts the request if and only if it has not ended and TCP has not won its race, and ends the wait if and only if QUIC had not won before either; a failure always ends it |
| HttpWait.StepKeepsInv | cxhttp/httpclient.c:206-256 | every region, of a request or of the client, keeps every wait in somebody's hand |
| HttpMark.EveryMarkEnds | cxhttp/httpclient.c:1080-1100 | over every interleaving in which nobody is careless, whoever is on the list waits for an origin that some thread has been granted, some request is dialling and will hear of, or some thread is about to take the mark off |
| HttpMark.OwnedExactly | cxhttp/httpclient.c:1080-1185 | exactly when a mark still has somebody to take it off after a step: when the step ends a dial for it, or some owner does not lose his dial to a socket published after the request ended, a failure about another dial, a redirect, or another dial begun |
| HttpMark.StepKeepsInv | cxhttp/httpclient.c:1080-1185 | every step that is not careless keeps every mark owned and every wait in somebody's hand |
| HttpMark.OnlyCarelessLoses | cxhttp/httpclient.c:1080-1185 | a dial is lost only in a step whose guard says so |
| HttpMark.EndedInSetup | cxhttp/httpclient.c:332-366 | a request that ends while its dial is being set up has no socket to close, so nobody is bound to take the mark off |
| HttpMark.UnheardIsLost | cxhttp/httpclient.c:812-821 | and the mark is lost once the socket is published to it |
| HttpMark.MarkLeftBehind | cxhttp/httpclient.c:1266-1293 | the run in which a mark is left behind: the request is ended between deciding to dial and its socket being published |
| HttpMark.EndingsBalance | cxhttp/httpclient.c:234-256 | over every run an origin's mark has been taken off as often as dials for it have ended, less the times that is still to come |
| HttpMark.FailuresBalance | cxhttp/httpclient.c:1068-1149 | and a request has been told of a failed dial as often as its dials have failed, less the times it has yet to hear |
| HttpMark.SetupExactly | cxhttp/httpclient.c:1276-1316 | a dial is being set up from when it begins until it has a socket or could not be started |
| HttpMark.OwnExactly | cxhttp/httpclient.c:1068-1316 | a dial is a request's own from when it begins until it is retired, lands, is refused or fails |
| HttpForm.WhatWasPulled | cxhttp/httpform.c:342-374 | however it is pulled, what comes out is the beginning of header, content, CRLF per part and the closing boundary; a body that ends without an error is all of it and as long as was announced; and it ends with an error if and only if a source does not give what it should |
| HttpForm.LengthIs | cxhttp/httpform.c:496-512 | the announced length is the length of the body when every source gives what was declared |
| HttpForm.MpProducer.EmitLiteral | cxhttp/httpform.c:215-226 | gives as much of a literal as is left and asked for |
| HttpForm.MpProducer.EmitContent | cxhttp/httpform.c:228-290 | gives content in order and never more than was declared; running short of a declared length is an error |
| HttpForm.MpProducer.Step | cxhttp/httpform.c:292-340 | one stage: what it gives continues the body, and it moves on a stage, gives something, or waits for a source |
| HttpForm.MpProducer.Pull | cxhttp/httpform.c:342-374 | fills the request unless the body is over or a source has nothing yet; terminates |
| HttpForm.MpProducer.ReadSource | cxhttp/httpform.c:228-262 | what a source gives is what comes next in it; an end or an error only where it is spent |
| HttpMultipart.FormReadsBack | cxhttp/httpform.c:67-213 | a receiver that reads the body by RFC 2046 and RFC 7578 finds the form that was sent, names, file names, types and contents, line breaks in names aside, if and only if no content contains the delimiter |
| HttpMultipart.HeadReads | cxhttp/httpform.c:67-116 | the header of a part reads as the name, file name and type it was made of |
| HttpMultipart.AppendQuoted | cxhttp/httpform.c:67-84 | the loop writes the quoted string: two characters escaped, line breaks left out |
| HttpMultipart.AddPart | cxhttp/httpform.c:91-116 | writes the delimiter line, the disposition, the type if there is one, and the blank line |
| HttpUrl.UrlRoundTrip | cxhttp/httpurl.c:32-158 | decoding undoes encoding for every byte string, every encode set and either meaning of a plus sign |
| HttpUrl.EscapeExactly | cxhttp/httpurl.c:32-91 | exactly which characters each encode set leaves alone; any other is a percent sign and two capital hexadecimal digits |
| HttpUrl.EscapeDecodes | cxhttp/httpurl.c:59-158 | two digits after a percent sign, in either case, are the byte they spell |
| HttpUrl.DecodeLeavesExactly | cxhttp/httpurl.c:119-158 | text is left alone if and only if there is no escape in it, nor a plus sign that means a space: so a percent sign that begins none stands for itself |
| HttpUrl.UrlEncode | cxhttp/httpurl.c:71-91 | the loop escapes exactly what is not safe |
| HttpUrl.UrlDecode | cxhttp/httpurl.c:119-158 | the loop over the pushback source decodes every well-formed escape and passes any other percent sign through |
| HttpUrl.TakeEscape | cxhttp/httpurl.c:132-146 | two hexadecimal digits after a percent sign become their byte; otherwise what was read is put back |
| HttpUrl.PushbackSource.NextByte | cxhttp/httpurl.c:103-110 | gives taken-back bytes first, the last of them foremost |
| HttpUrl.PushbackSource.Push | cxhttp/httpurl.c:113-116 | puts a byte back in front; never more than two |
| HttpUrl.QueryRoundTrip | cxhttp/httpurl.c:668-729 | a formatted query parses to the pairs that have a name, so to the pairs written if and only if all have one |
| HttpQuery.QueryExactly | cxhttp/httpurl.c:668-706 | any pieces with ampersands or semicolons between them parse to the pairs the pieces say, in order |
| HttpQuery.PairExactly | cxhttp/httpurl.c:680-700 | a piece is the name and value around its first equals sign, or all name, with escapes undone; without a name it is nothing |
| HttpQuery.PlusReads | cxhttp/httpurl.c:119-158 | a plus sign is a space in a form and itself elsewhere |
| HttpUrl.RemovedIsNormal | cxhttp/httpurl.c:356-396 | whatever the path, the result begins with a slash and has no dot segment |
| HttpUrl.RemoveDotsIdempotent | cxhttp/httpurl.c:356-396 | the paths left alone are exactly those, and a second run changes nothing |
| HttpRfcDots.AsRfcExactly | cxhttp/httpurl.c:354-396 | for every absolute path the result is that of the algorithm of section 5.2.4 of RFC 3986, run on strings as written there, if and only if the path does not end in a dot segment or that result does not end in two slashes; otherwise it has one slash fewer |
| HttpRfcDots.OneSlashFewer | cxhttp/httpurl.c:377-383 | the smallest path on which they part |
| HttpDots.DotDrops | cxhttp/httpurl.c:367-369 | a dot segment anywhere in a path stands for nothing |
| HttpDots.DotDotUndoes | cxhttp/httpurl.c:370-376 | two dots undo the segment before them, unless it is all there is |
| HttpDots.RootHolds | cxhttp/httpurl.c:370-376 | and never climb above the root |
| HttpDots.TrailingDot | cxhttp/httpurl.c:380-386 | a path that ends in a dot is what it was without it, with a slash at its end |
| HttpDots.TrailingDotDot | cxhttp/httpurl.c:380-386 | one that ends in two is what it is with the segment before them undone and a dot in their place |
| HttpUrl.RemoveDotSegments | cxhttp/httpurl.c:356-396 | the loop over segments, the trailing slash and the leading one |
| QuicFrame.PacketRoundTrip | cxquic/frame.c:93-461 | for every list of well-formed frames of which only the last lacks a length and no two PADDING runs touch, encoding takes exactly the sum of the sizes and repeated decoding returns the list and consumes everything |
| QuicFrame.RoundTrip | cxquic/frame.c:93-461 | a frame written and read back is itself and leaves what follows alone |
| QuicFrame.SizeExact | cxquic/frame.c:235-332 | the size function is the length of the encoding |
| QuicFrame.DecodedIsWellFormed | cxquic/frame.c:93-232 | whatever the decoder accepts is well formed and of the type read, and its encoding, for every form that is written, reads back the same |
| QuicLayout.FrameExactly | cxquic/frame.c:93-232 | any bytes: a frame is read if and only if they begin with a type in the table of section 19 of RFC 9000 or section 4 of RFC 9221 and go on with that type's parts within their bounds; the frame is of that type and has those parts in that order, and what follows is left; a run of PADDING is one frame |
| QuicFrameCoder.TakeAck | cxquic/frame.c:19-47 | reads an ACK frame, scanning its pairs, or refuses it |
| QuicFrameCoder.TakeStream | cxquic/frame.c:49-71 | reads a STREAM frame of any of the eight types, or refuses it |
| QuicFrameCoder.TakeNewConnId | cxquic/frame.c:73-90 | reads a NEW_CONNECTION_ID frame, or refuses it |
| QuicFrameCoder.TakePadding | cxquic/frame.c:106-115 | a run of padding is one frame |
| QuicFrameCoder.FrameDecode | cxquic/frame.c:93-232 | reads the next frame of a packet or answers no, as specified, for every input |
| QuicFrameCoder.FrameEncode | cxquic/frame.c:335-461 | writes a frame whole exactly when it has an encoding that fits |
| QuicAck.BuiltWalksBack | cxquic/frame.c:468-570 | walking an ACK that was built gives back exactly the ranges it was built from |
| QuicAck.IterationDescends | cxquic/frame.c:486-526 | for any bytes the ranges walked descend strictly, never touch, start at the largest and number at most rangeCount + 1 |
| QuicAck.WalksExactly | cxquic/frame.c:486-526 | any gaps and lengths: the ranges walked are exactly those they say, until they are used up or would go below zero, and the walk ends badly if and only if there are fewer than counted or those counted go below zero |
| QuicAck.BuildsExactly | cxquic/frame.c:529-570 | given the documented room, an ACK can be built exactly when there are ranges and they descend without touching |
| QuicAck.AckArrives | cxquic/frame.c:93-570 | ranges built into a frame, written, read off a packet and walked are the same ranges |
| QuicAck.AckIter.NextRange | cxquic/frame.c:486-526 | gives the next range without going below zero, or ends |
| QuicAck.AckBuild | cxquic/frame.c:529-570 | the loop writes the pairs into the caller's buffer, or refuses |
| QuicParams.ParamsRoundTrip | cxquic/params.c:49-279 | in-range parameters reach the peer as they were, a client's without the server-only ones, if what the peer insists on was stated, and otherwise not at all |
| QuicParams.RepeatRefused | cxquic/params.c:160-162 | any bytes in which a known parameter comes twice, however encoded, are refused |
| QuicParams.StrangersIgnored | cxquic/params.c:127-159 | any two inputs that hold the same known parameters in the same order, whatever unknown ones are among them, decode alike |
| QuicParams.OrderIgnored | cxquic/params.c:133-279 | and so do any two inputs whose known parameters are a permutation of one another |
| QuicStated.ParamsExactly | cxquic/params.c:113-279 | any bytes: taken if and only if they are a list in which no defined parameter comes twice, each has a value that section 18.2 of RFC 9000 allows it, a client states none that only a server has, and what the handshake is checked against is there; what is then known is what the list states, with the defaults for what it leaves out |
| QuicParams.ParamsDecode | cxquic/params.c:133-279 | the loop over the list takes or refuses as specified |
| QuicReasm.MergeIs | cxquic/reasm.c:54-95 | merging a range keeps the list sorted, disjoint, non-touching and within 16, and adds to what is covered exactly that range; a dropped range leaves it as it was |
| QuicReasm.HeldExactly | cxquic/reasm.c:54-95 | a piece is held after it was accepted if and only if it was not dropped |
| QuicReasm.DroppedMeans | cxquic/reasm.c:57-71 | what is dropped is exactly what touches nothing in a list of 16 |
| QuicReasm.NextByteDropped | cxquic/reasm.c:70-71 | even the byte the reader waits for is dropped when 16 ranges stand apart from it |
| QuicReasm.Reasm.Overwrite | cxquic/reasm.c:83 | the bytes go where they belong and no others change |
| QuicReasm.Reasm.SlideDown | cxquic/reasm.c:129-136 | the bytes kept move to the front, in place |
| QuicReasm.Reasm.DropFront | cxquic/reasm.c:119-127 | the list forgets exactly what is below the new base |
| QuicReasm.Reasm.Place | cxquic/reasm.c:54-68 | the two loops find where a range goes and what it becomes |
| QuicReasm.Reasm.Reserve | cxquic/reasm.c:72-81 | the buffer grows by doubling and keeps its bytes |
| QuicReasm.Reasm.Insert | cxquic/reasm.c:53-96 | a piece of the stream goes into the buffer and the list; every byte held is still the stream's |
| QuicReasm.Reasm.Add | cxquic/reasm.c:33-97 | refuses exactly what runs past the limit, drops what was consumed already, holds an accepted piece if and only if the full list did not drop it, and keeps every byte held equal to the stream's |
| QuicReasm.Reasm.Consume | cxquic/reasm.c:114-137 | hands over the stream's next bytes and slides the window down, forgetting exactly what was consumed |
| QuicReasm.ReadableIsTheRun | cxquic/reasm.c:100-105 | what can be read is all there is up to the first byte missing |
| QuicReasm.ReadsTheStream | cxquic/reasm.c:33-137 | however pieces arrive, overlap, repeat or go missing, what the reader has had is the beginning of the stream and what it can read next is what comes next |
| QuicAckState.RecordAcks | cxquic/reasm.c:144-179 | exactly what is acknowledged after a number is recorded: it and all there was, unless the list is full and the number touches none of it; then all but the lowest range, or, for a number lower still, what there was |
| QuicAckState.RecordDescends | cxquic/reasm.c:144-179 | the list stays descending, non-touching and within 32 |
| QuicAckState.AckState.FindSlot | cxquic/reasm.c:146-154 | the scan finds where a number belongs, or that it is there already |
| QuicAckState.AckState.Store | cxquic/reasm.c:156-182 | joins, inserts, displaces or leaves out, and answers whether the number was recorded |
| QuicAckState.AckState.Add | cxquic/reasm.c:144-194 | tells new numbers from those already received if and only if the number has not been forgotten (displaced from a full list or left out of it); the list names exactly what was received and not forgotten, the largest received is kept, and an ack-eliciting number counts exactly when it is recorded |
| QuicAckState.RecordKnows | cxquic/reasm.c:144-179 | recording keeps the list naming exactly the numbers received and not forgotten |
| QuicAckState.HeardTwice | cxquic/reasm.c:165-181 | of 33 numbers apart from one another the first is answered as new again |
| QuicAckState.CanAlwaysAcknowledge | cxquic/reasm.c:144-194 | whatever has been received can be built into an ACK as it stands, and a peer that walks it finds exactly the numbers received and not forgotten |
| QuicPacketNumber.RecoveredExactly | cxquic/wire.c:260-277 | a truncated packet number is recovered if and only if it is within half a window of the one expected, or the numbers run out before anything nearer |
| QuicPacketNumber.SentIsRecovered | cxquic/wire.c:229-277 | the size a sender picks is enough for a receiver that has had what it acknowledged, with fewer than 2^31 packets outstanding |
| QuicPacketNumber.LeastSize | cxquic/wire.c:229-257 | and it is the least number of bytes that holds twice the packets outstanding, or four |
| QuicPacketNumber.SizeFor | cxquic/wire.c:229-257 | the bit-counting loop computes that size |
| ClassLayout.LayoutSound | cxautogen/classes.c:346-518 | for every class of every hierarchy: slots are unique by name and begin with all of the parent's in the same order, and the list made before regrouping and internal-method insertion equals the one recomputed after |
| ClassLayout.FillExtends | cxautogen/classes.c:16-41 | filling a class's slots extends its parent's |
| ClassLayout.FillMethods | cxautogen/classes.c:16-41 | the two loops inherit, override in place and append |
| ClassLayout.MoveFactory | cxautogen/classes.c:460-477 | one factory moves up behind the factories before it; the others keep their order |
| ClassLayout.RegroupFactories | cxautogen/classes.c:460-477 | the in-place loop moves factories to the front and keeps the order of both groups |

## Left out

- Qpack.SectionRoundTrip: strings shorter than 4 GiB, as the source's 32-bit string lengths have it, and a section limit below 2^32.
- QpackCoder.QpackDecode: allocation always succeeds, so the internal-error path is not reached.
- H3Msg.MessageDelivered: the trailers are written by a reference writer; the source has none.
- H3Msg.FragmentationIndependence: the count of body bytes is unbounded and does not wrap at 64 bits.
- HttpParse.FragmentationIndependence: the method is a token; the enumeration of known methods is not modelled.
- H3MsgReader.MsgReader.MsgStep: the ring is a sequence of bytes, so where its segments lie is not captured.
- HttpWire.ResponseArrives: the response is written by a reference writer; the server's own is not part of this model.
- HttpRace.NothingGoesQuiet: safety only; that a dial sooner or later answers is not claimed.
- HttpPump.BodyPump.PumpBodyStream: the sends of one request do not overlap; an application that clears the error of a stream is not modelled.
- HttpPump.BodyPump.Feed: a producer that answers short without ending is asked again at once by the source; the model takes that as one answer.
- HttpConn.OneRequestAtATime: a request is one with the call that submitted it, so the same request stored by a second call is not captured; the connection is a transition system on values; timers and socket events are steps that may come at any time.
- QuicParams.ParamsRoundTrip: integers are held as a map of those that differ from their defaults, and the writer is a function on values rather than on a buffer.
- QuicAckState.AckState.Add: the time of the largest packet is not modelled.
- QuicReasm.Reasm.Add: allocation always succeeds.
- ClassLayout.LayoutSound: class and interface inheritance of method slots only; the text that is generated is not modelled.
- HttpMultipart.FormReadsBack: the receiver is a reference reader, the source has none; a content type is taken to be one line, which the source does not check; the boundary is any bytes without CR, where the source draws it at random.
- HttpHead.HeadExactly: blocks of whole lines; lines that are malformed or too long are `HttpHead.LineExactly`.
- HttpHistory.WaitingExactly: in both directions but for the steps whose effect depends on whose answer it is, which are counted as possible ends.
- QpackForms.SectionExactly: integers in their shortest form.
- The mapping between HTTP/3 field sections and requests or responses, pseudo-headers included.
- TLS, QUIC packet protection, loss recovery and congestion control.
- The QUIC send buffer and stream flow control.
- HTTP authentication, cookies, redirects, proxies and the connection pool's limits, which add mostly easy members.
- URL parsing and resolution other than encoding, dot segments and queries.
- The object system, containers, strings, virtual file system and task queues of the runtime.
