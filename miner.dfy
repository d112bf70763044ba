/** Miner records as the configuration file stores them (the "miners" list). */
module MinerRecord {

  datatype Option<T> = None | Some(value: T) {
    function GetOr(default: T): T {
      if Some? then value else default
    }
  }

  datatype Result<T, E> = Success(value: T) | Failure(error: E)

  /** The nine per-miner tuning keys, in the column order of the tuning grid. */
  datatype Field = MinFreq | MaxFreq | StartFreq | MinVolt | MaxVolt | StartVolt | MaxTemp | MaxWatts | MaxVrTemp

  /**
   * What a miner record holds under one tuning key: the key may be missing
   * (Absent), hold JSON null, a string (the empty string included) or an integer.
   */
  datatype FieldValue = Absent | Null | Str(s: string) | Int(n: int)

  /** One value per tuning key. */
  datatype Fields<T> = Fields(
    minFreq: T, maxFreq: T, startFreq: T,
    minVolt: T, maxVolt: T, startVolt: T,
    maxTemp: T, maxWatts: T, maxVrTemp: T)
  {
    function Get(f: Field): T {
      match f
      case MinFreq => minFreq
      case MaxFreq => maxFreq
      case StartFreq => startFreq
      case MinVolt => minVolt
      case MaxVolt => maxVolt
      case StartVolt => startVolt
      case MaxTemp => maxTemp
      case MaxWatts => maxWatts
      case MaxVrTemp => maxVrTemp
    }

    /** The same values with `v` under key `f`. */
    function With(f: Field, v: T): (r: Fields<T>)
      ensures r.Get(f) == v
      ensures forall g :: g != f ==> r.Get(g) == Get(g)
    {
      match f
      case MinFreq => this.(minFreq := v)
      case MaxFreq => this.(maxFreq := v)
      case StartFreq => this.(startFreq := v)
      case MinVolt => this.(minVolt := v)
      case MaxVolt => this.(maxVolt := v)
      case StartVolt => this.(startVolt := v)
      case MaxTemp => this.(maxTemp := v)
      case MaxWatts => this.(maxWatts := v)
      case MaxVrTemp => this.(maxVrTemp := v)
    }
  }

  /** The nine keys in grid column order. */
  const GridFields: seq<Field> := [MinFreq, MaxFreq, StartFreq, MinVolt, MaxVolt, StartVolt, MaxTemp, MaxWatts, MaxVrTemp]

  /** Applies `g` to the value under every key. */
  function MapFields<T, U>(xs: Fields<T>, g: T -> U): (r: Fields<U>)
    ensures forall f :: r.Get(f) == g(xs.Get(f))
  {
    Fields(g(xs.minFreq), g(xs.maxFreq), g(xs.startFreq),
           g(xs.minVolt), g(xs.maxVolt), g(xs.startVolt),
           g(xs.maxTemp), g(xs.maxWatts), g(xs.maxVrTemp))
  }

  /** Two key-by-key equal records are equal. */
  lemma FieldsExt<T>(a: Fields<T>, b: Fields<T>)
    requires forall f :: a.Get(f) == b.Get(f)
    ensures a == b
  {
    assert a.Get(MinFreq) == b.Get(MinFreq) && a.Get(MaxFreq) == b.Get(MaxFreq);
    assert a.Get(StartFreq) == b.Get(StartFreq) && a.Get(MinVolt) == b.Get(MinVolt);
    assert a.Get(MaxVolt) == b.Get(MaxVolt) && a.Get(StartVolt) == b.Get(StartVolt);
    assert a.Get(MaxTemp) == b.Get(MaxTemp) && a.Get(MaxWatts) == b.Get(MaxWatts);
    assert a.Get(MaxVrTemp) == b.Get(MaxVrTemp);
  }

  /**
   * One entry of the "miners" list. The "nickname" key may be missing (None
   * here). A missing "enabled" key reads as false, as `miner.get("enabled",
   * False)` does.
   */
  datatype Miner = Miner(nickname: Option<string>, kind: string, ip: string, settings: Fields<FieldValue>, enabled: bool)

  /**
   * Index of the first miner whose IP is `ip`, or `|ms|` when there is none:
   * the search done by the `for ... break` loop of the edit dialog and by
   * `next((m for m in ms if m["ip"] == ip), {})`.
   */
  function FirstMatch(ms: seq<Miner>, ip: string): (k: nat)
    ensures k <= |ms|
    ensures k < |ms| ==> ms[k].ip == ip
    ensures forall j :: 0 <= j < k ==> ms[j].ip != ip
  {
    if |ms| == 0 then 0
    else if ms[0].ip == ip then 0
    else 1 + FirstMatch(ms[1..], ip)
  }

  /** IPs of a list of miners, in list order. */
  function Ips(ms: seq<Miner>): (r: seq<string>)
    ensures |r| == |ms|
    ensures forall i :: 0 <= i < |ms| ==> r[i] == ms[i].ip
  {
    if ms == [] then [] else Ips(ms[..|ms| - 1]) + [ms[|ms| - 1].ip]
  }

  predicate IsDigit(c: char) {
    '0' <= c <= '9'
  }

  /** The character of a decimal digit. */
  function DigitChar(d: nat): (c: char)
    requires d < 10
    ensures IsDigit(c) && c as int - '0' as int == d
  {
    ('0' as int + d) as char
  }

  /** Any index before which no miner has `ip`, and which is the end or has `ip`, is the first match. */
  lemma FirstMatchIsLeast(ms: seq<Miner>, ip: string, i: nat)
    requires i <= |ms|
    requires forall j :: 0 <= j < i ==> ms[j].ip != ip
    requires i < |ms| ==> ms[i].ip == ip
    ensures FirstMatch(ms, ip) == i
  {
  }
}
