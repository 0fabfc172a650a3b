/** Digital zoom of the visible-light camera: the factor is clamped to
    [1, 8] and turned into a centred `ScalerCrop` window of the full
    4608 x 2592 sensor. The Picamera2 driver itself is not modelled; a
    camera is its number, its zoom factor and the crop last requested. */
module PiCam {

  /** Full sensor size of the IMX708. */
  const SensorWidth: nat := 4608
  const SensorHeight: nat := 2592

  const MinZoom: real := 1.0
  const MaxZoom: real := 8.0

  /** A `ScalerCrop` rectangle: top-left corner, width and height in sensor
      pixels. */
  datatype Crop = Crop(x: int, y: int, w: int, h: int)

  const FullSensor: Crop := Crop(0, 0, SensorWidth, SensorHeight)

  datatype Camera = Camera(cameraNum: int, zoom: real, crop: Crop)

  /** `PiCam(camera_num)`: no zoom, and the whole sensor as crop. */
  function NewCamera(cameraNum: int): (c: Camera)
    ensures c.cameraNum == cameraNum && c.zoom == 1.0 && c.crop == FullSensor
  {
    Camera(cameraNum, 1.0, FullSensor)
  }

  /** The two `if`s of `set_zoom`: factors below 1 become 1 and factors
      above 8 become 8; anything in between is kept. */
  function ClampZoom(f: real): (z: real)
    ensures MinZoom <= z <= MaxZoom
    ensures MinZoom <= f <= MaxZoom ==> z == f
    ensures f < MinZoom ==> z == MinZoom
    ensures f > MaxZoom ==> z == MaxZoom
  {
    var lifted := if f < MinZoom then MinZoom else f;
    if lifted > MaxZoom then MaxZoom else lifted
  }

  /** `int(n / z)` for a positive quotient: truncation is the floor. */
  function ScaledDown(n: nat, z: real): (m: int)
    requires MinZoom <= z
    ensures 0 <= m <= n
    ensures m as real <= n as real / z < m as real + 1.0
  {
    var q := n as real / z;
    assert 0.0 <= q <= n as real by {
      assert q * z == n as real;
      assert q <= q * z;
    }
    q.Floor
  }

  /** The crop `set_zoom` requests for an already clamped factor `z`. */
  function CropWindow(z: real): (c: Crop)
    requires MinZoom <= z <= MaxZoom
    // the window has the sensor size divided by the zoom, rounded down
    ensures c.w as real <= SensorWidth as real / z < c.w as real + 1.0
    ensures c.h as real <= SensorHeight as real / z < c.h as real + 1.0
    // it lies inside the sensor
    ensures 0 <= c.x && c.x + c.w <= SensorWidth
    ensures 0 <= c.y && c.y + c.h <= SensorHeight
    // it is centred: the right margin equals the left one or exceeds it by one
    ensures 0 <= (SensorWidth - c.x - c.w) - c.x <= 1
    ensures 0 <= (SensorHeight - c.y - c.h) - c.y <= 1
  {
    var w := ScaledDown(SensorWidth, z);
    var h := ScaledDown(SensorHeight, z);
    Crop((SensorWidth - w) / 2, (SensorHeight - h) / 2, w, h)
  }

  /** `set_zoom(factor)`: remembers the clamped factor and requests the crop
      window for it. */
  function SetZoom(c: Camera, factor: real): (c': Camera)
    ensures c'.cameraNum == c.cameraNum
    ensures c'.zoom == ClampZoom(factor)
    ensures MinZoom <= c'.zoom <= MaxZoom
    ensures c'.crop == CropWindow(c'.zoom)
  {
    var z := ClampZoom(factor);
    Camera(c.cameraNum, z, CropWindow(z))
  }

  /** A window is never smaller than an eighth of the sensor on either axis. */
  lemma CropAtLeastEighth(z: real)
    requires MinZoom <= z <= MaxZoom
    ensures CropWindow(z).w >= SensorWidth / 8 && CropWindow(z).h >= SensorHeight / 8
  {
    var c := CropWindow(z);
    assert SensorWidth as real / z >= SensorWidth as real / MaxZoom by {
      DivideByLarger(SensorWidth as real, z, MaxZoom);
    }
    assert SensorHeight as real / z >= SensorHeight as real / MaxZoom by {
      DivideByLarger(SensorHeight as real, z, MaxZoom);
    }
  }

  lemma DivideByLarger(n: real, a: real, b: real)
    requires 0.0 <= n && 0.0 < a <= b
    ensures n / b <= n / a
  {
    assert n / b * b == n == n / a * a;
    assert n / b * a <= n / b * b;
  }

  /** A larger zoom factor never gives a larger window. */
  lemma CropShrinksWithZoom(z1: real, z2: real)
    requires MinZoom <= z1 <= z2 <= MaxZoom
    ensures CropWindow(z2).w <= CropWindow(z1).w
    ensures CropWindow(z2).h <= CropWindow(z1).h
  {
    DivideByLarger(SensorWidth as real, z1, z2);
    DivideByLarger(SensorHeight as real, z1, z2);
  }

  /** The same for the factors given to `set_zoom`, before clamping. */
  lemma SetZoomMonotone(c: Camera, f1: real, f2: real)
    requires f1 <= f2
    ensures SetZoom(c, f2).crop.w <= SetZoom(c, f1).crop.w
    ensures SetZoom(c, f2).crop.h <= SetZoom(c, f1).crop.h
  {
    CropShrinksWithZoom(ClampZoom(f1), ClampZoom(f2));
  }

  /** A fresh camera is in exactly the state `set_zoom(1.0)` (or any factor
      up to 1) puts it in: zoom 1 and the full-sensor crop. */
  lemma FreshCameraIsUnzoomed(num: int, f: real)
    requires f <= MinZoom
    ensures SetZoom(NewCamera(num), f) == NewCamera(num)
  {
    assert CropWindow(1.0).w == SensorWidth;
    assert CropWindow(1.0).h == SensorHeight;
  }
}
