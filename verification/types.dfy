/** Values shared by every part of the payment-method-token model: Go byte
    strings, the error values the package produces or passes through, the
    failure-compatible Result type, and Go's fixed-width integer behaviour. */
module PmtTypes {

  /** A Go byte. Go strings and []byte are both sequences of these. */
  newtype byte = x: int | 0 <= x < 256

  type Bytes = seq<byte>

  /** The bytes of an ASCII literal (every character below 256 maps to itself). */
  function Ascii(s: string): (b: Bytes)
    ensures |b| == |s|
    ensures forall i :: 0 <= i < |s| && s[i] as int < 256 ==> b[i] as int == s[i] as int
  {
    seq(|s|, i requires 0 <= i < |s| => (s[i] as int % 256) as byte)
  }

  /** Errors. The package's own errors.New values get a case each; errors that
      come from a collaborator (JSON, base64, PKIX, HTTP, url.Parse) are passed
      through unchanged and are only told apart by an opaque code. */
  datatype Error =
    | UnsupportedProtocolVersion            // pmt.go:78
    | CouldNotVerifySignature               // pmt.go:162
    | ExpiredKey                            // keys_manager.go:30
    | NonEcdsaKeyPanic                      // pmt.go:186: the type assertion panics in Go
    | InvalidProtocolVersion(version: Bytes) // pmt.go:194
    | MissingKeysManager                    // pmt.go:198
    | MissingSenderID                       // pmt.go:202
    | MissingRecipientID                    // pmt.go:206
    | MissingKeysDownloader                 // keys_manager.go:90
    | UrlNotHttps                           // keys_downloader.go:107
    | NumSyntaxError                        // strconv.ErrSyntax
    | NumRangeError                         // strconv.ErrRange
    | Foreign(code: int)                    // any error produced by a collaborator

  datatype Result<+T> = Ok(value: T) | Err(error: Error) {
    predicate IsFailure() { Err? }

    function PropagateFailure<U>(): Result<U>
      requires Err?
    {
      Err(error)
    }

    function Extract(): T
      requires Ok?
    {
      value
    }
  }

  datatype Option<+T> = None | Some(value: T)

  const TWO_POW_63: int := 0x8000_0000_0000_0000
  const TWO_POW_64: int := 0x1_0000_0000_0000_0000

  predicate InInt64(x: int) { -TWO_POW_63 <= x < TWO_POW_63 }

  /** Two's-complement wrap-around of a Go int64 arithmetic result. */
  function Wrap64(x: int): (r: int)
    ensures InInt64(r)
    ensures (r - x) % TWO_POW_64 == 0
    ensures InInt64(x) ==> r == x
  {
    var m := x % TWO_POW_64;
    if m < TWO_POW_63 then m else m - TWO_POW_64
  }

  /** Go's integer division by two, which truncates toward zero (Dafny's `/`
      is Euclidean and rounds negative odd values down instead). */
  function GoHalf(d: int): (h: int)
    ensures d >= 0 ==> 2 * h <= d <= 2 * h + 1
    ensures d < 0 ==> 2 * h - 1 <= d <= 2 * h
  {
    if d >= 0 then d / 2 else -((-d) / 2)
  }

  /** Applies f to every element in order and stops at the first error: the
      shape of the Go loops that fill a result slice and return early. */
  function MapAll<A, B>(f: A -> Result<B>, xs: seq<A>): Result<seq<B>> {
    if xs == [] then Ok([])
    else
      match f(xs[0])
      case Err(e) => Err(e)
      case Ok(y) =>
        match MapAll(f, xs[1..])
        case Err(e) => Err(e)
        case Ok(ys) => Ok([y] + ys)
  }

  /** MapAll succeeds exactly when f succeeds on every element, and then
      returns f's results index by index. */
  lemma {:induction false} MapAllOk<A, B>(f: A -> Result<B>, xs: seq<A>)
    ensures MapAll(f, xs).Ok? <==> forall i :: 0 <= i < |xs| ==> f(xs[i]).Ok?
    ensures MapAll(f, xs).Ok? ==>
      |MapAll(f, xs).value| == |xs| && forall i :: 0 <= i < |xs| ==> MapAll(f, xs).value[i] == f(xs[i]).value
  {
    if xs != [] {
      MapAllOk(f, xs[1..]);
      if MapAll(f, xs).Ok? {
        forall i | 0 <= i < |xs| ensures f(xs[i]).Ok? && MapAll(f, xs).value[i] == f(xs[i]).value {
          if i > 0 {
            assert xs[1..][i - 1] == xs[i];
          }
        }
      }
      if forall i :: 0 <= i < |xs| ==> f(xs[i]).Ok? {
        assert forall i :: 0 <= i < |xs| - 1 ==> xs[1..][i] == xs[i + 1];
      }
    }
  }

  /** MapAll fails with the error of the first element f rejects. */
  lemma {:induction false} MapAllFirstError<A, B>(f: A -> Result<B>, xs: seq<A>, k: nat)
    requires k < |xs| && f(xs[k]).Err?
    requires forall i :: 0 <= i < k ==> f(xs[i]).Ok?
    ensures MapAll(f, xs) == Err(f(xs[k]).error)
  {
    if k > 0 {
      assert xs[1..][k - 1] == xs[k];
      MapAllFirstError(f, xs[1..], k - 1);
    }
  }

  /** The error MapAll reports is the error of its first rejected element. */
  lemma {:induction false} MapAllError<A, B>(f: A -> Result<B>, xs: seq<A>)
    requires MapAll(f, xs).Err?
    ensures exists k ::
      && 0 <= k < |xs| && f(xs[k]).Err? && MapAll(f, xs).error == f(xs[k]).error
      && forall i :: 0 <= i < k ==> f(xs[i]).Ok?
  {
    if f(xs[0]).Ok? {
      MapAllError(f, xs[1..]);
      var k :| 0 <= k < |xs[1..]| && f(xs[1..][k]).Err? && MapAll(f, xs[1..]).error == f(xs[1..][k]).error &&
        forall i :: 0 <= i < k ==> f(xs[1..][i]).Ok?;
      assert xs[1..][k] == xs[k + 1];
      forall i | 0 <= i < k + 1 ensures f(xs[i]).Ok? {
        if i > 0 {
          assert xs[1..][i - 1] == xs[i];
        }
      }
    }
  }
}
