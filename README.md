# ntpclient in Dafny

A model of the protocol arithmetic of the Go package `ntpclient`. The package sends one NTP
client request (RFC 5905, section 7.3) over UDP and reads the server's reply. The model covers:

- the first byte of the request, where the client writes mode 3 (client) and the version
  into bit fields (`header.dfy`);
- the 48-byte big-endian layout that `binary.Write` and `binary.Read` give the `msg` struct,
  as an encoder and a decoder over `seq<bv8>`, with the `io.ReadFull` behaviour on short
  replies (`wire.dfy`);
- the conversion of a 64-bit NTP timestamp (RFC 5905, section 6) to nanoseconds since
  1900-01-01T00:00:00Z, in Go's `uint64` arithmetic (`timestamp.dfy`);
- the clock offset `msg.diff`, in Go's `time.Duration` arithmetic: `Sub` saturates, Duration
  subtraction wraps and `/ 2` truncates toward zero (`gotime.dfy`, `offset.dfy`);
- `get`, which updates the `*msg` in place, as the method `Get` of a class `Packet`. Also the
  version check and result shaping of `CustomClient` and `ExtClient` (`client.dfy`).

Instants are integer nanoseconds since the NTP epoch. The two `time.Now()` readings the
result uses are parameters; the one that only sets the deadline is dropped with it. The
network layer is a `Network` value: it says whether resolution, dialing and the write fail,
which bytes the connection delivers and which error follows them. The two client methods
also return the sequence of network calls they make, so a refused version can be seen to
make none.

## Model

| member | source | states |
|---|---|---|
| `Header.Pack` | ntpclient.go:60 | The leap indicator (2 bits), version (3 bits) and mode (3 bits) can be read back from the byte they are packed into. |
| `Header.PackFields` | ntpclient.go:60 | Every first byte is the packing of its own three fields. |
| `Header.WithMode` | ntpclient.go:94-95 | `(b & 0xf8)` OR `mode` sets bits 2-0 to the mode and keeps the leap indicator and version. |
| `Header.VersionByte` | ntpclient.go:98 | `byte(version)` is the plain conversion for every version below 256. |
| `Header.VersionByteWraps` | ntpclient.go:98 | `byte(version)` wraps around: versions 256 apart give the same byte. |
| `Header.WithVersion` | ntpclient.go:97-98 | `(b & 0xc7)` OR `byte(version) << 3` sets bits 5-3 to any version below 8 and keeps the leap indicator and mode. |
| `Header.ClientHeader` | ntpclient.go:94-98 | For a version below 8, after both steps the mode is client (3) and the version bits equal the version, and bits 7-6 keep their earlier value. |
| `Header.ClientHeaderIdempotent` | ntpclient.go:94-98 | Preparing the byte twice gives the same byte as preparing it once, for every version. |
| `Header.ClientHeaderOfZero` | ntpclient.go:94-98 | From a zero byte, version 3 gives 0x1B and version 4 gives 0x23. |
| `Header.VersionEightSpills` | ntpclient.go:98 | Version 8 would set the leap indicator, so the callers' check for versions 3 and 4 is what keeps bits 7-6 intact. |
| `Wire.JoinOfWordBytes` | ntpclient.go:64-66 | A `uint32` field written as four bytes, most significant first, joins back to the same word. |
| `Wire.WordBytesOfJoin` | ntpclient.go:64-66 | Any four bytes are the big-endian form of the word read from them. |
| `Wire.PutValue` | ntpclient.go:59-71 | A byte field takes one byte on the wire and a `uint32` field takes four. |
| `Wire.PutSize` | ntpclient.go:100 | The encoder's walk over the fields writes exactly the sum of their sizes, with no padding. |
| `Wire.GetFrom` | ntpclient.go:104 | The decoder's walk reads one value for each declared field. |
| `Wire.GetShape` | ntpclient.go:104 | The decoder's walk reads each field as the kind the struct declares. |
| `Wire.GetPut` | ntpclient.go:100-104 | Decoding what the encoder's walk wrote returns every field, in order, for any sequence of fields. |
| `Wire.GetStep` | ntpclient.go:104 | The decoder reads a field written in front of the rest back as that field, then goes on with the rest. |
| `Wire.PutGet` | ntpclient.go:100-104 | Encoding what the decoder's walk read returns every byte, for any field shape. |
| `Wire.FieldsShape` | ntpclient.go:59-71 | A `msg`'s fields in declaration order, the timestamps flattened into their two words, are four bytes then eleven `uint32` words. |
| `Wire.MsgShapeSize` | ntpclient.go:59-71 | Those fields take 48 bytes. |
| `Wire.FromFields` | ntpclient.go:59-71 | The `msg` built from fields of that shape has exactly those fields. |
| `Wire.Encode` | ntpclient.go:100 | `binary.Write` of a `msg` writes exactly 48 bytes. |
| `Wire.EncodeFieldAt` | ntpclient.go:59-71 | Every field sits at its RFC 5905 offset: field j at byte j for the four header bytes and at byte 4j-12 for the words, each right after the one before. |
| `Wire.EncodeHeader` | ntpclient.go:60-63 | Bytes 0 to 3 are `LiVnMode`, `Stratum`, `Poll` and `Precision`. |
| `Wire.EncodeTransmitTime` | ntpclient.go:70 | Bytes 40 to 47 are `TransmitTime.Seconds` then `TransmitTime.Fraction`, each big-endian. |
| `Wire.PutZeros` | ntpclient.go:100 | Zero fields are written as zero bytes. |
| `Wire.EncodeFirstByteOnly` | ntpclient.go:93-100 | A `msg` that is zero apart from `LiVnMode` is written as that byte followed by 47 zero bytes. |
| `Wire.ParseEncode` | ntpclient.go:100-104 | Decoding the 48 bytes written for a `msg` gives back the same `msg`, field for field. |
| `Wire.Parse` | ntpclient.go:104 | The `msg` that `binary.Read` decodes from any 48 bytes encodes back to exactly those bytes. With `ParseEncode` this makes the codec a bijection. |
| `Wire.ReadFull` | ntpclient.go:104 | Reading 48 bytes succeeds exactly when 48 bytes arrive. A reply cut short by io.EOF is io.ErrUnexpectedEOF; any other connection error is passed on unchanged. |
| `Wire.ReadMsg` | ntpclient.go:104 | `binary.Read` succeeds exactly when at least 48 bytes arrive, and the result is the decoding of the first 48. A shorter reply is an error and is never zero-padded. |
| `Wire.ReadMsgEncode` | ntpclient.go:100-104 | A reply that starts with an encoded `msg` reads back as that `msg`. |
| `GoTime.MulU64` | ntpclient.go:75 | `uint64` multiplication agrees with the exact product modulo 2^64, and equals it whenever the product is below 2^64. |
| `GoTime.AddU64` | ntpclient.go:75 | `uint64` addition is exact below 2^64 and otherwise wraps. |
| `GoTime.AsDuration` | ntpclient.go:76 | `time.Duration(nsec)` keeps the 64 bits and is the identity below 2^63. |
| `GoTime.Minus` | ntpclient.go:84-85 | Duration subtraction agrees with exact subtraction modulo 2^64, and is exact when the result fits. |
| `GoTime.Half` | ntpclient.go:84 | `d / 2` truncates toward zero: the remainder is 0 or 1 for d >= 0 and 0 or -1 for d < 0. |
| `GoTime.HalfNegate` | ntpclient.go:84 | Halving commutes with negation. |
| `GoTime.Sub` | ntpclient.go:81-82 | `time.Time.Sub` is the exact difference when it fits a Duration, and otherwise saturates at the bound on its side. |
| `Timestamp.Widen` | ntpclient.go:75 | `uint64(x)` of a `uint32` lies below 2^32. |
| `Timestamp.FractionNanos` | ntpclient.go:75 | `(Fraction * 1e9) >> 32` is below 1e9 and equals fraction/2^32 seconds rounded down to a nanosecond. |
| `Timestamp.UtcSteps` | ntpclient.go:75-76 | For any seconds and fraction, `uint64(Seconds)*1e9` plus the fraction's nanoseconds neither wraps nor turns negative as a Duration, and equals the timestamp rounded down to a nanosecond. |
| `Timestamp.Utc` | ntpclient.go:74-77 | `UTC()` gives `Seconds * 1e9` plus the fraction's nanoseconds, with no wrap-around. The result is below 2^32 * 1e9 and is the exact instant rounded down to a nanosecond. |
| `Timestamp.UtcNoOverflow` | ntpclient.go:75-76 | Neither product reaches 2^64, and the sum is below 2^63, so it fits a Duration. |
| `Timestamp.UtcMonotone` | ntpclient.go:75 | A later timestamp never converts to an earlier instant. |
| `Timestamp.UtcSecondsStrict` | ntpclient.go:75 | A larger `Seconds` gives a strictly later instant, whatever the fractions. |
| `Timestamp.UtcFractionMonotone` | ntpclient.go:75 | With equal `Seconds`, a larger `Fraction` gives an instant that is the same or later. |
| `Timestamp.UtcExamples` | ntpclient.go:75-76 | (0, 0) is the 1900 epoch. (0, 0x80000000) is 500,000,000 ns after it. |
| `Offset.Diff` | ntpclient.go:79-89 | `m.diff(original)` in Go's Duration arithmetic. For local instants between 1900 and about 2046 it equals `(T2-T1) - trunc(((T4-T1)-(T3-T2))/2)`, with T2 and T3 the server's receive and transmit instants: no step saturates or wraps. |
| `Offset.DiffSteps` | ntpclient.go:81-85 | For server instants below 2^32 s and local instants in that range, the saturating `Sub`, the wrapping Duration subtraction and the truncating `/ 2` compute the offset formula exactly. |
| `Offset.OffsetNearSymmetric` | ntpclient.go:84-85 | Twice the offset is within 1 of `(T2-T1)+(T3-T4)`, the symmetric NTP form. |
| `Offset.OffsetSymmetricWhenEven` | ntpclient.go:84-85 | When `(T4-T1)-(T3-T2)` is even, the offset equals `((T2-T1)+(T3-T4))/2` exactly. |
| `Offset.DiffExamples` | ntpclient.go:80-85 | T1=0, T2=T3=10, T4=20 gives offset 0: the round trip is 20, half of it is 10, and the server's stamp sits at the midpoint. (This example is sometimes quoted as giving 10; the formula the code implements gives 0.) A server 15 s ahead of the request on a 10 s round trip gives offset 10 s, also through `diff` on a decoded `msg`. |
| `NtpClient.ByteValue` | ntpclient.go:173 | `int(Stratum)` lies in [0, 255]. |
| `NtpClient.ClientRequest` | ntpclient.go:93-98 | For a version below 8, the request has mode client and the given version, and keeps its leap bits. For every version, every field other than `LiVnMode` is unchanged. |
| `NtpClient.ClientRequestIdempotent` | ntpclient.go:93-98 | Preparing a request twice is the same as preparing it once. |
| `NtpClient.RequestDatagram` | ntpclient.go:93-100 | A fresh client sends 0x1B (version 3) or 0x23 (version 4) followed by 47 zero bytes. |
| `NtpClient.Outcome` | ntpclient.go:109-128 | A version other than 3 or 4 is "invalid version". A call gets a reply exactly when the version is valid, resolution, dialing and the write succeed and at least 48 bytes arrive; otherwise the first error on the way is the result: the resolution, dial or write error unchanged, or the read's error (`io.ErrUnexpectedEOF` after a partial reply ended by EOF, else the connection's own). The reply encodes back to the first 48 bytes received. When no network error is "invalid version", that error is returned exactly when the version is refused. |
| `NtpClient.Packet.constructor` | ntpclient.go:124 | `&msg{}` starts as the zero `msg`. |
| `NtpClient.Packet.Get` | ntpclient.go:93-105 | Sets the first byte in place, returns the local send time and writes the request. If the write fails, its error is returned and the request stays in `*msg`. Otherwise a full reply overwrites `*msg`; a failed read returns its error and leaves the request. |
| `NtpClient.CustomClient` | ntpclient.go:108-131 | Returns the reply's receive time, or the first error (returned unchanged) with 1970-01-01. A version other than 3 or 4 fails with "invalid version" and makes no network call. An open connection is closed exactly once, as the last call. |
| `NtpClient.ExtClient` | ntpclient.go:145-175 | On success returns the send time, the receive time, `diff` and `int(Stratum)` in [0, 255]. On failure only `Err` is set. The version check and the network calls are as in `CustomClient`. |

## Left out

- The UDP plumbing (`net.JoinHostPort`, `ResolveUDPAddr`, `DialUDP`, `SetDeadline`, `Close`) is not modelled. Each appears only as a call in the returned sequence and as an outcome in `Network`. Host and port reach no modelled code.
- The 5-second deadline is not modelled. An expired deadline reaches the model only as the error that ends the inbound bytes. The error that `SetDeadline` returns is ignored by the source and is not modelled.
- `Request.Timeout` is carried but never read, as in the source.
- `time.Now()` at ntpclient.go:99 is the parameter `Network.sentAt` and at ntpclient.go:80 the parameter `Network.doneAt`. The reading at ntpclient.go:122 only feeds `SetDeadline` and is dropped together with the deadline.
- Go's monotonic clock reading is not modelled. Go's `time.Now()` values carry one, so `original2.Sub(original)` (ntpclient.go:81) measures monotonic elapsed time, while the other `Sub` calls (ntpclient.go:82, 85) use the wall clock. The model has one clock: `Network.doneAt` stands for `sentAt` plus the monotonic time that elapsed, and is used only in `Sub(now, original)`.
- `.Local()` time-zone conversion and `time.Date` calendar arithmetic are left out. Instants are nanoseconds since 1900. The two dates the source builds with `time.Date` are constants: 1970-01-01 (`errTime`, ntpclient.go:28) and the NTP epoch 1900-01-01 (ntpclient.go:76), which is instant 0. Go's zero `time.Time`, 0001-01-01, which the unset `L` and `R` of an error `Response` hold, is a constant too.
- `time.Time.Add` is unbounded here. Go's own range limits for `time.Time` are not modelled.
- The connection is modelled as a byte stream, not as datagrams. The model reads the first 48 bytes and ignores any that follow, as `binary.Read` does. A length other than 48 is therefore not rejected by itself; only a reply shorter than 48 bytes is an error.
- `Offset.Diff`: the closed formula covers only local instants between 1900 and about 2046. Outside that range, `Diff` still models Go's saturation and wrap-around, but no closed formula is proved for it.
- The commented-out root-delay arithmetic (ntpclient.go:87, 166-167) is dead code and is not modelled.
- The `Client` wrapper and the package-level defaults `Timeout`, `Port` and `Version` (ntpclient.go:27-35, 134-142) are configuration and are not modelled.
- Era handling and the 2036 wrap-around of `Seconds` are not modelled. `Poll` and `Precision` stay plain bytes, as in the source.
- Go's `error` values are modelled as one datatype. An error from the network layer is an opaque `Net` value that is passed through unchanged. `Network`'s error slots accept any `Error`, including `InvalidVersion`, which Go's network layer never returns. Only under `NtpClient.NetErrorsDistinct` does `Err(InvalidVersion)` mean that the version was refused.
