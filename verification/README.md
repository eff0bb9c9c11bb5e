# VC0706 serial camera driver, modelled in Dafny

This project models the protocol layer of a Python driver for a VC0706 serial camera. The
driver sends fixed binary commands over a serial link and decodes the length of the captured
JPEG from the device's reply. It then reads the device's frame buffer in chunks of at most
1024 bytes and assembles the image in the `image_photo` list. It also has two label tables
that turn user-interface labels into device byte codes.

Modules, one per concern:

- `Bytes` (bytes.dfy): the byte type and Python's `(x >> 8k) & 0xff` idiom. It defines
  4-byte big-endian encoding and decoding and proves both round trips.
- `Serial` (serial.dfy): the serial link, modelled as an oracle. `Port` holds the bytes that
  have arrived but are not read yet, and the replies the device will send, one per command
  written. It also keeps a ghost log of every command written. A write followed by the settle
  delay makes the next reply arrive. `read(n)` takes bytes from the front of the input
  buffer, and `read_all()` drains it. A reply the driver never reads stays in the buffer, as
  it does on the wire: `set_photo_size` and `take_photo` leave theirs there.
- `Camera` (camera.dfy): camera.py. It holds the protocol constants and the command
  catalogue. It has `PrepareCommand` (`__prepare_command`) and the frame-buffer length decoder
  (`FbufLen`, and the loop `DecodeFbufLen`). `ChunkPlan` gives the offsets and sizes
  `read_fbuf` requests, and `FetchChunks` gives what its loop appends. The class `Camera`
  has the `image_photo` field and one method per driver operation.
- `Tools` (tools.dfy): tools.py's two label tables, as lookups that return the code or the
  `KeyError` an unknown label raises.

The two files disagree on the size codes. camera.py:30-31 gives 640x480 the code 0x00, and
that is the byte `set_photo_size_cmd` sends. tools.py:27-30 gives 640x480 the code 0x11. Each
module models its own file as written.

## Model

| member | source | states |
|---|---|---|
| `Bytes.BeEncodeAt` | camera.py:101-102 | byte j of the 4-byte big-endian encoding equals Python's `(x >> 8k) & 0xff` for the matching k, for any integer x, negative ones included |
| `Bytes.BeDecodeEncode` | camera.py:101-102 | decoding the big-endian encoding of x gives x modulo 256^width, so the shift-and-mask bytes keep the low 32 bits |
| `Bytes.BeRoundTrip` | camera.py:101-102 | a value in [0, 256^width) survives encoding then decoding |
| `Bytes.BeEncodeDecode` | camera.py:86-88 | re-encoding a decoded byte sequence at its own width gives back the sequence |
| `Bytes.BeDecode` | camera.py:86-88 | the big-endian value of n bytes is below 256^n |
| `Camera.CatalogueBytes` | camera.py:38-41 | the version, reset, take-photo and get-buffer-length commands are byte for byte 56 00 11 00, 56 00 26 00, 56 00 36 01 00 and 56 00 34 01 00 |
| `Camera.CatalogueCommands` | camera.py:38-45 | in each fixed command the count byte equals the number of parameter bytes after it (4, 5, 5 for the compression and size commands); the read-buffer head's count 0x0c equals 2 + 4 + 4 + 2 |
| `Camera.PrepareCommand` | camera.py:100-105 | the read command has 16 bytes, starts with the read-buffer head, ends with [1, 0] and is a complete command whose count byte matches; every byte is below 256 |
| `Camera.PrepareCommandFields` | camera.py:100-105 | bytes 6-9 and 10-13 are the big-endian encodings of the start address and the length, and they decode to each argument modulo 2^32 |
| `Camera.PrepareCommandRoundTrip` | camera.py:100-105 | for an address and a length in [0, 2^32), decoding bytes 6-9 and 10-13 gives them back exactly |
| `Camera.DecodeFbufLen` | camera.py:85-89 | the decoding loop yields the big-endian value of the last four reply bytes, in [0, 2^32); with fewer than four bytes it fails with an index error, and only then |
| `Camera.FbufLenInvertsEncoding` | camera.py:85-89 | whatever precedes them, four trailing bytes that encode x in [0, 2^32) decode to x |
| `Camera.FbufLenEncodes` | camera.py:85-89 | a reply of at least four bytes decodes, and the decoded length re-encodes to its last four bytes |
| `Camera.FbufLenExample` | camera.py:85-89 | a reply ending 00 00 04 00 gives 1024 |
| `Camera.FbufLenClosedForm` | camera.py:85-89 | a reply ending b0 b1 b2 b3 gives b0 * 2^24 + b1 * 2^16 + b2 * 2^8 + b3, the sum of the shifted bytes the loop ORs together |
| `Camera.ChunkAt` | camera.py:110-115 | chunk i starts 1024 * i bytes in and holds 1 to 1024 bytes; all but the last hold exactly 1024; the last ends at the total, so the loop's offset stops at the total |
| `Camera.ChunkPlanShape` | camera.py:110-115 | every chunk of the plan starts at 1024 * i, holds 1 to 1024 bytes and ends by the total; all but the last hold 1024 |
| `Camera.ChunkPlanIncreasing` | camera.py:110-115 | chunk offsets strictly increase and chunks do not overlap |
| `Camera.ChunkPlanCount` | camera.py:110-115 | the loop runs ceil(L / 1024) times, and not at all when L <= 0 |
| `Camera.ChunkPlanSum` | camera.py:110-115 | the chunk sizes add up to L |
| `Camera.ChunkPlanExample` | camera.py:110-115 | L = 2500 is read as 1024, 1024 and 452 bytes at offsets 0, 1024 and 2048 |
| `Camera.ReadCommands` | camera.py:111-113 | one read command per chunk, in chunk order, each built from that chunk's size and offset |
| `Camera.ReadCommandsAddress` | camera.py:111-113 | for L < 2^32, read command i carries address 1024 * i and its chunk's size, as the device decodes them |
| `Camera.PySlice` | camera.py:122 | Python's clamped slice: within bounds it is the ordinary subsequence; it never has more than hi - lo bytes, and fewer when the sequence ends before hi |
| `Camera.FetchChunks` | camera.py:116-122 | the loop never appends more bytes than the chunk sizes add up to |
| `Camera.Payloads` | camera.py:122 | the payloads of well-framed replies have exactly as many bytes as the chunks |
| `Camera.FetchWellFramed` | camera.py:116-122 | with an empty input buffer and one well-framed reply per chunk, each reply is consumed whole and bytes [5, 5 + n) of each are appended in chunk order |
| `Camera.FetchLength` | camera.py:116-122 | whatever is already waiting, if each reply has at least 5 + n bytes then every chunk read keeps exactly its n bytes |
| `Camera.ReadFbufLength` | camera.py:107-123 | whatever is already waiting, if every reply has at least its header and payload (5 + n bytes), `read_fbuf(L)` appends exactly L bytes; with nothing waiting and well-framed replies (a full chunk exactly 5 + n + 5 bytes) it also leaves the input buffer empty |
| `Camera.ReadFbufReassembles` | camera.py:107-123 | when reply i frames the frame-buffer bytes of chunk i, `read_fbuf(len(image))` appends the frame buffer itself, in offset order |
| `Camera.FetchShort` | camera.py:116-122 | if every reply but the last fits its chunk and the last is shorter than 5 + n bytes, the chunk reads keep fewer bytes than the chunk sizes add up to |
| `Camera.ShortReplyTruncates` | camera.py:117-122 | for any L > 0, however many chunks: if the earlier replies fit their chunks and the final reply is shorter than header plus payload, `read_fbuf(L)` yields fewer than L bytes and no error; there is no short-read check |
| `Camera.Camera.constructor` | camera.py:58-60 | a new camera holds the given port and an empty `image_photo` |
| `Camera.Camera.GetVersion` | camera.py:62-66 | writes the version command, then returns every byte that has arrived and empties the input buffer |
| `Camera.Camera.Reset` | camera.py:68-72 | writes the reset command, then returns every byte that has arrived and empties the input buffer |
| `Camera.Camera.SetPhotoCompression` | camera.py:74-80 | writes the set-ratio then the get-ratio command and returns both replies together with anything pending |
| `Camera.Camera.GetFbufLen` | camera.py:82-89 | writes the get-buffer-length command, drains the input buffer, and decodes the drained bytes with `FbufLen` |
| `Camera.Camera.SetPhotoSize` | camera.py:91-93 | writes the set-size command; its reply stays unread in the input buffer |
| `Camera.Camera.TakePhoto` | camera.py:95-98 | sets the compression, then writes the take-photo command, whose reply stays unread |
| `Camera.Camera.ReadFbuf` | camera.py:107-123 | writes exactly the chunk plan's read commands. `image_photo` keeps its old contents as a prefix and grows by what `FetchChunks` gives for the plan. The port ends in the state `FetchChunks` gives, and the result equals `image_photo` |
| `Serial.Port.Write` | camera.py:113-114 | a write followed by the settle delay logs the command and makes the device's next reply arrive |
| `Serial.Port.Read` | camera.py:118 | `read(n)` returns the first n waiting bytes and leaves the rest waiting |
| `Serial.Port.ReadAll` | camera.py:120 | `read_all()` returns every waiting byte and empties the input buffer |
| `Tools.SetComprRatio` | tools.py:18-24 | a code is found exactly for '1X', '2X' and '4X'; any other label gives a KeyError naming it |
| `Tools.ChoosePhotoSize` | tools.py:26-31 | a code is found exactly for '320x240' and '640x480'; any other label gives a KeyError naming it |
| `Tools.LabelCodes` | tools.py:18-31 | '1X', '2X' and '4X' map to 0x36, 0x72 and 0xFF; '320x240' and '640x480' map to 0x00 and 0x11 |
| `Tools.ComprRatioInjective` | tools.py:19-23 | distinct ratio labels have distinct codes |
| `Tools.PhotoSizeInjective` | tools.py:27-30 | distinct size labels have distinct codes |

## Left out

- Serial transport: opening `serial.Serial` with a port name and a baud rate (camera.py:58-59) is replaced by a `Port` built from the device's replies. The settle delay (`time.sleep`) is not modelled as time. It is the point at which the reply to the last command has arrived.
- Serial.Port.Read: pyserial's `read(n)` without a timeout waits until n bytes have arrived. The model returns the bytes that are waiting when fewer than n are. For a full chunk whose reply is short, the real driver would hang where the model carries on.
- Camera.Camera.ReadFbuf returns a copy of `image_photo`, while camera.py:123 returns the list object itself. A caller holding that reference can change `image_photo` through it; camera_app.py:57 and 62 empty it that way between captures. The model does not capture this aliasing: its `image_photo` changes only through `read_fbuf`.
- Camera.Camera.GetVersion and Camera.Camera.Reset return the raw reply bytes. The UTF-8 decoding of camera.py:65 and 71, and its `UnicodeDecodeError`, are not modelled.
- Camera.Camera.SetPhotoCompression returns the raw reply bytes. The `hex` formatting of camera.py:79 is not modelled.
- Camera.DecodeFbufLen: the reply bytes are mathematical integers, and `|=` of the shifted bytes is written as a sum. The shifted bytes occupy disjoint bit ranges, so the two agree. numpy's `uint8` typing is not modelled.
- Camera.Camera.ReadFbuf: how each reply is split across reads follows the model of `read`. The guarantees about the assembled image hold for an empty input buffer at the start and framed replies; `GetFbufLen` ensures the buffer is empty. The driver itself checks neither condition, and with a short reply it silently returns a shorter image (`ShortReplyTruncates`).
- `save_photo` and `plot_photo` (camera.py:125-136), processing.py and camera_app.py: file output, JPEG decoding and the user interface. camera_app.py assigns the looked-up codes to instance attributes that no command reads.
- The demonstration script at camera.py:138-148.
- `Tools.find_com_port_name` (tools.py:12-16): it enumerates the host's serial ports.
- Constants and class attributes that no modelled operation uses: the reply signature, the baud-rate opcode, the next-frame code, the 320x240 size code, the read-data code, `TIMEOUT`, the default port and baud rate, and the photos folder name.
